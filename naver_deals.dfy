/** The institutional/foreign net-buying digest: extraction of the top-10 lines from a
    ranking table, classification of a page's tables into buy and sell sides with the
    positional fallback, and the per-section result with its debug notes. An HTML page
    is represented by its status, its text and its `table.type_2` tables, each a header
    text and rows of stripped cell texts. */
module NaverDeals {
  import opened Text

  datatype Table = Table(header: string, rows: seq<seq<string>>)
  datatype Response = Response(status: int, text: string, tables: seq<Table>)
  /** The dict returned by fetch_one. */
  datatype Deals = Deals(buy: seq<string>, sell: seq<string>, debug: string)
  /** The dict `labeled` and the list `unknown` of fetch_one's table loop. */
  datatype Labels = Labels(buy: Option<seq<string>>, sell: Option<seq<string>>, unknown: seq<(int, seq<string>)>)
  /** What fetching `url` gives: the page that fetch_one's request, decoding and table
      selection produce (fetch_and_send.py lines 69-76), or an exception raised inside
      fetch_one and caught by fetch_from_naver (line 141), with its message. */
  datatype Attempt = Answered(response: Response) | Raised(error: string)

  const MaxRows := 10
  const TotalName := "합계"
  const NoDataLine := "데이터 없음"
  const ExcerptLen := 300

  // ---------------------------------------------------------------------------
  // parse_table

  /** A row with at least 7 cells whose name cell is neither empty nor the total row. */
  predicate IsDataRow(row: seq<string>)
  {
    |row| >= 7 && row[1] != "" && row[1] != TotalName
  }

  function DataRows(rows: seq<seq<string>>): seq<seq<string>>
  {
    if rows == [] then []
    else
      var init := DataRows(rows[..|rows| - 1]);
      if IsDataRow(rows[|rows| - 1]) then init + [rows[|rows| - 1]] else init
  }

  /** `f"{k}. {name} {amt}백만"` with the name cell and the last cell. */
  function Line(k: nat, row: seq<string>): string
    requires |row| >= 7
  {
    NatToDecimal(k) + ". " + row[1] + " " + row[|row| - 1] + "백만"
  }

  /** The lines parse_table has produced after reading `rows`: a data row is appended,
      numbered from 1, while fewer than 10 lines exist. */
  function TableLines(rows: seq<seq<string>>): seq<string>
  {
    if rows == [] then []
    else
      var prev := TableLines(rows[..|rows| - 1]);
      var row := rows[|rows| - 1];
      if IsDataRow(row) && |prev| < MaxRows then prev + [Line(|prev| + 1, row)] else prev
  }

  /** parse_table: stop once 10 lines exist. */
  method ParseTable(rows: seq<seq<string>>) returns (lines: seq<string>)
    ensures lines == TableLines(rows)
    ensures |lines| == Min(MaxRows, |DataRows(rows)|)
    ensures forall k :: 0 <= k < |lines| ==>
              IsDataRow(DataRows(rows)[k]) && lines[k] == Line(k + 1, DataRows(rows)[k])
  {
    lines := [];
    var i := 0;
    while i < |rows|
      invariant 0 <= i <= |rows|
      invariant lines == TableLines(rows[..i])
      invariant |lines| < MaxRows
    {
      TableLinesStep(rows, i);
      var tds := rows[i];
      i := i + 1;
      if |tds| < 7 {
        continue;
      }
      var name := tds[1];
      var amt := tds[|tds| - 1];
      if name == "" || name == TotalName {
        continue;
      }
      lines := lines + [NatToDecimal(|lines| + 1) + ". " + name + " " + amt + "백만"];
      if |lines| >= MaxRows {
        TableLinesSaturated(rows, i);
        break;
      }
    }
    if i == |rows| {
      assert rows[..i] == rows;
    }
    TableLinesFacts(rows, lines);
  }

  /** One more row: a data row is appended as the next numbered line while fewer than
      10 lines exist; anything else changes nothing. */
  lemma TableLinesStep(rows: seq<seq<string>>, i: int)
    requires 0 <= i < |rows|
    ensures var prev := TableLines(rows[..i]);
            TableLines(rows[..i + 1]) ==
              if IsDataRow(rows[i]) && |prev| < MaxRows then prev + [Line(|prev| + 1, rows[i])] else prev
  {
    assert rows[..i + 1][..i] == rows[..i];
  }

  /** Once 10 lines exist, the remaining rows add nothing (the `break`). */
  lemma {:induction false} TableLinesSaturated(rows: seq<seq<string>>, i: int)
    requires 0 <= i <= |rows| && |TableLines(rows[..i])| >= MaxRows
    ensures TableLines(rows) == TableLines(rows[..i])
  {
    if i < |rows| {
      var init := rows[..|rows| - 1];
      assert init[..i] == rows[..i];
      TableLinesSaturated(init, i);
    } else {
      assert rows[..i] == rows;
    }
  }

  /** As many lines as data rows, but at most 10. */
  lemma {:induction false} TableLinesLength(rows: seq<seq<string>>)
    ensures |TableLines(rows)| == Min(MaxRows, |DataRows(rows)|)
  {
    if rows != [] {
      TableLinesLength(rows[..|rows| - 1]);
    }
  }

  /** Line k is numbered k + 1 and comes from the k-th data row. */
  lemma {:induction false} TableLinesContent(rows: seq<seq<string>>)
    ensures |TableLines(rows)| <= |DataRows(rows)|
    ensures forall k :: 0 <= k < |TableLines(rows)| ==>
              IsDataRow(DataRows(rows)[k]) && TableLines(rows)[k] == Line(k + 1, DataRows(rows)[k])
  {
    TableLinesLength(rows);
    if rows != [] {
      var init := rows[..|rows| - 1];
      var row := rows[|rows| - 1];
      TableLinesContent(init);
      TableLinesLength(init);
      var prev := TableLines(init);
      var d := DataRows(init);
      if IsDataRow(row) && |prev| < MaxRows {
        var lines := TableLines(rows);
        var data := DataRows(rows);
        assert lines == prev + [Line(|prev| + 1, row)];
        assert data == d + [row];
        forall k | 0 <= k < |lines| ensures IsDataRow(data[k]) && lines[k] == Line(k + 1, data[k]) {
          if k < |prev| {
            assert lines[k] == prev[k] && data[k] == d[k];
          } else {
            assert lines[k] == Line(|prev| + 1, row) && data[k] == row;
          }
        }
      } else if IsDataRow(row) {
        var data := DataRows(rows);
        assert TableLines(rows) == prev && data == d + [row];
        forall k | 0 <= k < |prev| ensures data[k] == d[k] {
          assert data[k] == d[k];
        }
      } else {
        assert DataRows(rows) == d && TableLines(rows) == prev;
      }
    }
  }

  /** At most 10 lines, one per data row in row order, numbered 1, 2, ... consecutively. */
  lemma TableLinesFacts(rows: seq<seq<string>>, lines: seq<string>)
    requires lines == TableLines(rows)
    ensures |lines| == Min(MaxRows, |DataRows(rows)|)
    ensures forall k :: 0 <= k < |lines| ==>
              IsDataRow(DataRows(rows)[k]) && lines[k] == Line(k + 1, DataRows(rows)[k])
  {
    TableLinesLength(rows);
    TableLinesContent(rows);
  }

  /** A row is kept exactly when it is a data row; kept rows stay in order. */
  lemma {:induction false} DataRowsIff(rows: seq<seq<string>>, row: seq<string>)
    ensures row in DataRows(rows) <==> row in rows && IsDataRow(row)
  {
    if rows != [] {
      var init := rows[..|rows| - 1];
      DataRowsIff(init, row);
      assert rows == init + [rows[|rows| - 1]];
    }
  }

  lemma {:induction false} DataRowsAppend(a: seq<seq<string>>, b: seq<seq<string>>)
    ensures DataRows(a + b) == DataRows(a) + DataRows(b)
  {
    if b == [] {
      assert a + b == a;
    } else {
      var init := b[..|b| - 1];
      DataRowsAppend(a, init);
      assert (a + b)[..|a + b| - 1] == a + init;
      assert (a + b)[|a + b| - 1] == b[|b| - 1];
    }
  }

  // ---------------------------------------------------------------------------
  // fetch_one

  predicate IsBuyHeader(h: string) { Contains(h, "순매수") || Contains(h, "매수") }
  predicate IsSellHeader(h: string) { Contains(h, "순매도") || Contains(h, "매도") }

  /** A table with data whose header names the buy side (tested first). */
  predicate IsBuyTable(t: Table) { TableLines(t.rows) != [] && IsBuyHeader(t.header) }
  /** A table with data whose header names the sell side and not the buy side. */
  predicate IsSellTable(t: Table) { TableLines(t.rows) != [] && !IsBuyHeader(t.header) && IsSellHeader(t.header) }
  /** A table with data whose header names neither side. */
  predicate IsUnlabelled(t: Table) { TableLines(t.rows) != [] && !IsBuyHeader(t.header) && !IsSellHeader(t.header) }

  /** The table loop of fetch_one after `tables`. */
  function Classify(tables: seq<Table>): Labels
  {
    if tables == [] then Labels(None, None, [])
    else
      var l := Classify(tables[..|tables| - 1]);
      var t := tables[|tables| - 1];
      var data := TableLines(t.rows);
      if data == [] then l
      else if IsBuyHeader(t.header) then Labels(Some(data), l.sell, l.unknown)
      else if IsSellHeader(t.header) then Labels(l.buy, Some(data), l.unknown)
      else Labels(l.buy, l.sell, l.unknown + [(|tables| - 1, data)])
  }

  /** `text[:300].replace("\n", " ")`. */
  function Excerpt(text: string): (e: string)
    ensures |e| == Min(ExcerptLen, |text|)
    ensures forall i :: 0 <= i < |e| ==>
              e[i] != '\n' && (text[i] == '\n' ==> e[i] == ' ') && (text[i] != '\n' ==> e[i] == text[i])
  {
    var p := text[..Min(ExcerptLen, |text|)];
    seq(|p|, i requires 0 <= i < |p| => if p[i] == '\n' then ' ' else p[i])
  }

  const HttpErrorPrefix := "HTTP 오류 (status "
  const NoTablesPrefix := "테이블 없음. 응답 앞부분: "
  const NoDataPrefix := "유효 데이터 없음. 응답 앞부분: "

  /** What fetch_one returns for a page. */
  function FetchOutcome(resp: Response): Deals
  {
    if resp.status != 200 then Deals([], [], HttpErrorPrefix + IntToString(resp.status) + ")")
    else if resp.tables == [] then Deals([], [], NoTablesPrefix + Excerpt(resp.text))
    else
      var l := Classify(resp.tables);
      var buy0 := if l.buy.Some? && l.buy.value != [] then l.buy.value else [];
      var sell0 := if l.sell.Some? && l.sell.value != [] then l.sell.value else [];
      var buy := if buy0 == [] && |l.unknown| > 0 then l.unknown[0].1 else buy0;
      var sell := if sell0 == [] && |l.unknown| >= 2 then l.unknown[1].1 else sell0;
      Deals(buy, sell, if buy == [] && sell == [] then NoDataPrefix + Excerpt(resp.text) else "")
  }

  /** fetch_one, from the point where the page has been received. */
  method FetchOne(resp: Response) returns (out: Deals)
    ensures out == FetchOutcome(resp)
    ensures out.debug != "" <==> out.buy == [] && out.sell == []
    ensures |out.buy| <= MaxRows && |out.sell| <= MaxRows
  {
    FetchDebugIff(resp);
    FetchBounded(resp);
    if resp.status != 200 {
      out := Deals([], [], HttpErrorPrefix + IntToString(resp.status) + ")");
      return;
    }
    var tables := resp.tables;
    if tables == [] {
      out := Deals([], [], NoTablesPrefix + Excerpt(resp.text));
      return;
    }
    var labeledBuy: Option<seq<string>> := None;
    var labeledSell: Option<seq<string>> := None;
    var unknown: seq<(int, seq<string>)> := [];
    for idx := 0 to |tables|
      invariant Labels(labeledBuy, labeledSell, unknown) == Classify(tables[..idx])
    {
      assert tables[..idx + 1][..idx] == tables[..idx];
      var table := tables[idx];
      var headerText := table.header;
      var data := ParseTable(table.rows);
      if data == [] {
        continue;
      }
      if Contains(headerText, "순매수") || Contains(headerText, "매수") {
        labeledBuy := Some(data);
      } else if Contains(headerText, "순매도") || Contains(headerText, "매도") {
        labeledSell := Some(data);
      } else {
        unknown := unknown + [(idx, data)];
      }
    }
    assert tables[..|tables|] == tables;
    var buy: seq<string> := [];
    var sell: seq<string> := [];
    var debug := "";
    if labeledBuy.Some? && labeledBuy.value != [] {
      buy := labeledBuy.value;
    }
    if labeledSell.Some? && labeledSell.value != [] {
      sell := labeledSell.value;
    }
    if buy == [] && |unknown| > 0 {
      buy := unknown[0].1;
    }
    if sell == [] && |unknown| >= 2 {
      sell := unknown[1].1;
    }
    if buy == [] && sell == [] {
      debug := NoDataPrefix + Excerpt(resp.text);
    }
    out := Deals(buy, sell, debug);
  }

  /** "순매수" contains "매수", so the buy test is the same as testing "매수" alone; likewise sell. */
  lemma KeywordSubsumed(h: string)
    ensures IsBuyHeader(h) <==> Contains(h, "매수")
    ensures IsSellHeader(h) <==> Contains(h, "매도")
  {
    if Contains(h, "순매수") {
      var i :| 0 <= i <= |h| - 3 && OccursAt(h, "순매수", i);
      assert h[i + 1..i + 3] == h[i..i + 3][1..];
      ContainsWitness(h, "매수", i + 1);
    }
    if Contains(h, "순매도") {
      var i :| 0 <= i <= |h| - 3 && OccursAt(h, "순매도", i);
      assert h[i + 1..i + 3] == h[i..i + 3][1..];
      ContainsWitness(h, "매도", i + 1);
    }
  }

  /** The buy label is the last buy table with data, and absent when there is none. */
  lemma {:induction false} ClassifyBuy(ts: seq<Table>) returns (w: int)
    ensures Classify(ts).buy.None? <==> forall j :: 0 <= j < |ts| ==> !IsBuyTable(ts[j])
    ensures Classify(ts).buy.Some? ==>
              0 <= w < |ts| && IsBuyTable(ts[w]) && Classify(ts).buy.value == TableLines(ts[w].rows)
              && forall j :: w < j < |ts| ==> !IsBuyTable(ts[j])
  {
    if ts == [] {
      w := 0;
    } else {
      var init := ts[..|ts| - 1];
      var t := ts[|ts| - 1];
      w := ClassifyBuy(init);
      assert forall j :: 0 <= j < |init| ==> init[j] == ts[j];
      if IsBuyTable(t) {
        assert Classify(ts).buy == Some(TableLines(t.rows));
        w := |ts| - 1;
      } else {
        assert Classify(ts).buy == Classify(init).buy;
      }
    }
  }

  /** The sell label is the last sell table with data, and absent when there is none. */
  lemma {:induction false} ClassifySell(ts: seq<Table>) returns (w: int)
    ensures Classify(ts).sell.None? <==> forall j :: 0 <= j < |ts| ==> !IsSellTable(ts[j])
    ensures Classify(ts).sell.Some? ==>
              0 <= w < |ts| && IsSellTable(ts[w]) && Classify(ts).sell.value == TableLines(ts[w].rows)
              && forall j :: w < j < |ts| ==> !IsSellTable(ts[j])
  {
    if ts == [] {
      w := 0;
    } else {
      var init := ts[..|ts| - 1];
      var t := ts[|ts| - 1];
      w := ClassifySell(init);
      assert forall j :: 0 <= j < |init| ==> init[j] == ts[j];
      if IsSellTable(t) {
        assert Classify(ts).sell == Some(TableLines(t.rows));
        w := |ts| - 1;
      } else {
        assert Classify(ts).sell == Classify(init).sell;
      }
    }
  }

  /** Each entry of `unknown` is an unlabelled table with its position and lines. */
  lemma {:induction false} UnknownEntries(ts: seq<Table>)
    ensures forall k :: 0 <= k < |Classify(ts).unknown| ==>
              var (j, data) := Classify(ts).unknown[k];
              0 <= j < |ts| && IsUnlabelled(ts[j]) && data == TableLines(ts[j].rows)
  {
    if ts != [] {
      var n := |ts| - 1;
      var init := ts[..n];
      UnknownEntries(init);
      var u := Classify(init).unknown;
      var u' := Classify(ts).unknown;
      if IsUnlabelled(ts[n]) {
        assert u' == u + [(n, TableLines(ts[n].rows))];
        forall k | 0 <= k < |u'|
          ensures 0 <= u'[k].0 < |ts| && IsUnlabelled(ts[u'[k].0]) && u'[k].1 == TableLines(ts[u'[k].0].rows)
        {
          if k < |u| {
            assert u'[k] == u[k] && init[u[k].0] == ts[u[k].0];
          }
        }
      } else {
        assert u' == u;
        forall k | 0 <= k < |u'|
          ensures 0 <= u'[k].0 < |ts| && IsUnlabelled(ts[u'[k].0]) && u'[k].1 == TableLines(ts[u'[k].0].rows)
        {
          assert init[u[k].0] == ts[u[k].0];
        }
      }
    }
  }

  /** The positions in `unknown` increase. */
  lemma {:induction false} UnknownSorted(ts: seq<Table>)
    ensures forall k, m :: 0 <= k < m < |Classify(ts).unknown| ==>
              Classify(ts).unknown[k].0 < Classify(ts).unknown[m].0
  {
    if ts != [] {
      var n := |ts| - 1;
      var init := ts[..n];
      UnknownSorted(init);
      UnknownEntries(init);
      var u := Classify(init).unknown;
      if IsUnlabelled(ts[n]) {
        var u' := u + [(n, TableLines(ts[n].rows))];
        assert Classify(ts).unknown == u';
        forall k, m | 0 <= k < m < |u'| ensures u'[k].0 < u'[m].0 {
          assert u'[k] == u[k];
          if m < |u| {
            assert u'[m] == u[m];
          }
        }
      } else {
        assert Classify(ts).unknown == u;
      }
    }
  }

  /** The position in `unknown` of an unlabelled table. */
  lemma {:induction false} UnknownIndex(ts: seq<Table>, j: int) returns (k: nat)
    requires 0 <= j < |ts| && IsUnlabelled(ts[j])
    ensures k < |Classify(ts).unknown| && Classify(ts).unknown[k].0 == j
  {
    var n := |ts| - 1;
    var init := ts[..n];
    var u := Classify(init).unknown;
    var e := (n, TableLines(ts[n].rows));
    if j < n {
      assert init[j] == ts[j];
      k := UnknownIndex(init, j);
      if IsUnlabelled(ts[n]) {
        assert Classify(ts).unknown == u + [e];
      } else {
        assert Classify(ts).unknown == u;
      }
    } else {
      assert Classify(ts).unknown == u + [e];
      k := |u|;
    }
  }

  /** Every unlabelled table appears in `unknown`. */
  lemma UnknownComplete(ts: seq<Table>)
    ensures forall j :: 0 <= j < |ts| && IsUnlabelled(ts[j]) ==>
              exists k :: 0 <= k < |Classify(ts).unknown| && Classify(ts).unknown[k].0 == j
  {
    UnknownCovers(ts, Classify(ts).unknown);
  }

  lemma UnknownCovers(ts: seq<Table>, u: seq<(int, seq<string>)>)
    requires u == Classify(ts).unknown
    ensures forall j :: 0 <= j < |ts| && IsUnlabelled(ts[j]) ==> exists k :: 0 <= k < |u| && u[k].0 == j
  {
    forall j | 0 <= j < |ts| && IsUnlabelled(ts[j]) ensures exists k :: 0 <= k < |u| && u[k].0 == j {
      var pos := UnknownIndex(ts, j);
    }
  }

  /** `unknown` lists every unlabelled table with data, with its position, in page order. */
  lemma ClassifyUnknown(ts: seq<Table>)
    ensures forall k :: 0 <= k < |Classify(ts).unknown| ==>
              var (j, data) := Classify(ts).unknown[k];
              0 <= j < |ts| && IsUnlabelled(ts[j]) && data == TableLines(ts[j].rows)
    ensures forall k, m :: 0 <= k < m < |Classify(ts).unknown| ==>
              Classify(ts).unknown[k].0 < Classify(ts).unknown[m].0
    ensures forall j :: 0 <= j < |ts| && IsUnlabelled(ts[j]) ==>
              exists k :: 0 <= k < |Classify(ts).unknown| && Classify(ts).unknown[k].0 == j
  {
    UnknownEntries(ts);
    UnknownSorted(ts);
    UnknownComplete(ts);
  }

  /** The first two entries of `unknown`, when present, are unlabelled tables in page order. */
  lemma UnknownHead(ts: seq<Table>)
    ensures var u := Classify(ts).unknown;
            |u| > 0 ==> 0 <= u[0].0 < |ts| && IsUnlabelled(ts[u[0].0]) && u[0].1 == TableLines(ts[u[0].0].rows)
    ensures var u := Classify(ts).unknown;
            |u| > 1 ==> u[0].0 < u[1].0 < |ts| && IsUnlabelled(ts[u[1].0]) && u[1].1 == TableLines(ts[u[1].0].rows)
  {
    UnknownEntries(ts);
    UnknownSorted(ts);
  }

  lemma UnknownOrder(ts: seq<Table>, k: int, m: int)
    requires 0 <= k < m < |Classify(ts).unknown|
    ensures Classify(ts).unknown[k].0 < Classify(ts).unknown[m].0
  {
    UnknownSorted(ts);
  }

  /** No unlabelled table comes before the first entry of `unknown`. */
  lemma UnknownFirstBound(ts: seq<Table>)
    requires |Classify(ts).unknown| > 0
    ensures forall j :: 0 <= j < |ts| && IsUnlabelled(ts[j]) ==> Classify(ts).unknown[0].0 <= j
  {
    forall j | 0 <= j < |ts| && IsUnlabelled(ts[j]) ensures Classify(ts).unknown[0].0 <= j {
      var k := UnknownIndex(ts, j);
      if k > 0 {
        UnknownOrder(ts, 0, k);
      }
    }
  }

  /** Between the first and second entries of `unknown` there is no unlabelled table. */
  lemma UnknownSecondBound(ts: seq<Table>)
    requires |Classify(ts).unknown| > 1
    ensures forall j :: 0 <= j < |ts| && IsUnlabelled(ts[j]) ==>
              j == Classify(ts).unknown[0].0 || Classify(ts).unknown[1].0 <= j
  {
    forall j | 0 <= j < |ts| && IsUnlabelled(ts[j])
      ensures j == Classify(ts).unknown[0].0 || Classify(ts).unknown[1].0 <= j
    {
      var k := UnknownIndex(ts, j);
      if k > 1 {
        UnknownOrder(ts, 1, k);
      }
    }
  }

  /** The buy list of fetch_one for a page with tables, in terms of the labels. */
  lemma BuyOutcome(text: string, ts: seq<Table>)
    requires ts != []
    ensures var l := Classify(ts);
            var buy0 := if l.buy.Some? && l.buy.value != [] then l.buy.value else [];
            FetchOutcome(Response(200, text, ts)).buy == (if buy0 == [] && |l.unknown| > 0 then l.unknown[0].1 else buy0)
  {
  }

  /** The sell list of fetch_one for a page with tables, in terms of the labels. */
  lemma SellOutcome(text: string, ts: seq<Table>)
    requires ts != []
    ensures var l := Classify(ts);
            var sell0 := if l.sell.Some? && l.sell.value != [] then l.sell.value else [];
            FetchOutcome(Response(200, text, ts)).sell == (if sell0 == [] && |l.unknown| >= 2 then l.unknown[1].1 else sell0)
  {
  }

  /** With a buy table, the buy list is the last buy table's lines. */
  lemma BuyFromLabel(text: string, ts: seq<Table>)
    requires ts != [] && exists j :: 0 <= j < |ts| && IsBuyTable(ts[j])
    ensures exists j :: 0 <= j < |ts| && IsBuyTable(ts[j])
              && FetchOutcome(Response(200, text, ts)).buy == TableLines(ts[j].rows)
              && forall j' :: j < j' < |ts| ==> !IsBuyTable(ts[j'])
  {
    var w := ClassifyBuy(ts);
    BuyOutcome(text, ts);
    assert Classify(ts).buy.Some?;
    assert FetchOutcome(Response(200, text, ts)).buy == TableLines(ts[w].rows);
  }

  /** Without a buy table, the buy list is the first unlabelled table's lines. */
  lemma BuyFromFirstUnlabelled(text: string, ts: seq<Table>)
    requires ts != [] && forall j :: 0 <= j < |ts| ==> !IsBuyTable(ts[j])
    requires exists j :: 0 <= j < |ts| && IsUnlabelled(ts[j])
    ensures exists j :: 0 <= j < |ts| && IsUnlabelled(ts[j])
              && FetchOutcome(Response(200, text, ts)).buy == TableLines(ts[j].rows)
              && forall j' :: 0 <= j' < j ==> !IsUnlabelled(ts[j'])
  {
    var _ := ClassifyBuy(ts);
    BuyOutcome(text, ts);
    UnknownHead(ts);
    var u := Classify(ts).unknown;
    var j0 :| 0 <= j0 < |ts| && IsUnlabelled(ts[j0]);
    var _ := UnknownIndex(ts, j0);
    UnknownFirstBound(ts);
    var a := u[0].0;
    assert 0 <= a < |ts| && IsUnlabelled(ts[a]);
    assert FetchOutcome(Response(200, text, ts)).buy == TableLines(ts[a].rows);
  }

  /** Without a buy table or an unlabelled table, the buy list is empty. */
  lemma BuyNone(text: string, ts: seq<Table>)
    requires ts != [] && forall j :: 0 <= j < |ts| ==> !IsBuyTable(ts[j]) && !IsUnlabelled(ts[j])
    ensures FetchOutcome(Response(200, text, ts)).buy == []
  {
    var _ := ClassifyBuy(ts);
    BuyOutcome(text, ts);
    UnknownHead(ts);
  }

  /** The buy list of a page with tables: the last buy table's lines; failing that, the
      first unlabelled table's lines; failing that, nothing. */
  lemma FetchBuyChoice(text: string, ts: seq<Table>)
    requires ts != []
    ensures (exists j :: 0 <= j < |ts| && IsBuyTable(ts[j])) ==>
              exists j :: 0 <= j < |ts| && IsBuyTable(ts[j])
                && FetchOutcome(Response(200, text, ts)).buy == TableLines(ts[j].rows)
                && forall j' :: j < j' < |ts| ==> !IsBuyTable(ts[j'])
    ensures (forall j :: 0 <= j < |ts| ==> !IsBuyTable(ts[j])) && (exists j :: 0 <= j < |ts| && IsUnlabelled(ts[j])) ==>
              exists j :: 0 <= j < |ts| && IsUnlabelled(ts[j])
                && FetchOutcome(Response(200, text, ts)).buy == TableLines(ts[j].rows)
                && forall j' :: 0 <= j' < j ==> !IsUnlabelled(ts[j'])
    ensures (forall j :: 0 <= j < |ts| ==> !IsBuyTable(ts[j]) && !IsUnlabelled(ts[j])) ==>
              FetchOutcome(Response(200, text, ts)).buy == []
  {
    if exists j :: 0 <= j < |ts| && IsBuyTable(ts[j]) {
      BuyFromLabel(text, ts);
    } else if exists j :: 0 <= j < |ts| && IsUnlabelled(ts[j]) {
      BuyFromFirstUnlabelled(text, ts);
    } else {
      BuyNone(text, ts);
    }
  }

  /** With a sell table, the sell list is the last sell table's lines. */
  lemma SellFromLabel(text: string, ts: seq<Table>)
    requires ts != [] && exists j :: 0 <= j < |ts| && IsSellTable(ts[j])
    ensures exists j :: 0 <= j < |ts| && IsSellTable(ts[j])
              && FetchOutcome(Response(200, text, ts)).sell == TableLines(ts[j].rows)
              && forall j' :: j < j' < |ts| ==> !IsSellTable(ts[j'])
  {
    var w := ClassifySell(ts);
    SellOutcome(text, ts);
    assert Classify(ts).sell.Some?;
    assert FetchOutcome(Response(200, text, ts)).sell == TableLines(ts[w].rows);
  }

  /** Without a sell table, the sell list is the second unlabelled table's lines. */
  lemma SellFromSecondUnlabelled(text: string, ts: seq<Table>)
    requires ts != [] && forall j :: 0 <= j < |ts| ==> !IsSellTable(ts[j])
    requires exists j1, j2 :: 0 <= j1 < j2 < |ts| && IsUnlabelled(ts[j1]) && IsUnlabelled(ts[j2])
    ensures exists j1, j2 :: 0 <= j1 < j2 < |ts| && IsUnlabelled(ts[j1]) && IsUnlabelled(ts[j2])
              && FetchOutcome(Response(200, text, ts)).sell == TableLines(ts[j2].rows)
              && forall j' :: 0 <= j' < j2 && IsUnlabelled(ts[j']) ==> j' == j1
  {
    var _ := ClassifySell(ts);
    SellOutcome(text, ts);
    UnknownHead(ts);
    var u := Classify(ts).unknown;
    var j1, j2 :| 0 <= j1 < j2 < |ts| && IsUnlabelled(ts[j1]) && IsUnlabelled(ts[j2]);
    var k1 := UnknownIndex(ts, j1);
    var k2 := UnknownIndex(ts, j2);
    assert k1 != k2;
    assert |u| >= 2;
    UnknownSecondBound(ts);
    var a, b := u[0].0, u[1].0;
    assert 0 <= a < b < |ts| && IsUnlabelled(ts[a]) && IsUnlabelled(ts[b]);
    assert FetchOutcome(Response(200, text, ts)).sell == TableLines(ts[b].rows);
  }

  /** Without a sell table or two unlabelled tables, the sell list is empty. */
  lemma SellNone(text: string, ts: seq<Table>)
    requires ts != [] && forall j :: 0 <= j < |ts| ==> !IsSellTable(ts[j])
    requires forall j1, j2 :: 0 <= j1 < j2 < |ts| ==> !IsUnlabelled(ts[j1]) || !IsUnlabelled(ts[j2])
    ensures FetchOutcome(Response(200, text, ts)).sell == []
  {
    var _ := ClassifySell(ts);
    SellOutcome(text, ts);
    UnknownHead(ts);
  }

  /** The sell list of a page with tables: the last sell table's lines; failing that, the
      second unlabelled table's lines (even when the first was not used for buy); failing
      that, nothing. */
  lemma FetchSellChoice(text: string, ts: seq<Table>)
    requires ts != []
    ensures (exists j :: 0 <= j < |ts| && IsSellTable(ts[j])) ==>
              exists j :: 0 <= j < |ts| && IsSellTable(ts[j])
                && FetchOutcome(Response(200, text, ts)).sell == TableLines(ts[j].rows)
                && forall j' :: j < j' < |ts| ==> !IsSellTable(ts[j'])
    ensures (forall j :: 0 <= j < |ts| ==> !IsSellTable(ts[j]))
            && (exists j1, j2 :: 0 <= j1 < j2 < |ts| && IsUnlabelled(ts[j1]) && IsUnlabelled(ts[j2])) ==>
              exists j1, j2 :: 0 <= j1 < j2 < |ts| && IsUnlabelled(ts[j1]) && IsUnlabelled(ts[j2])
                && FetchOutcome(Response(200, text, ts)).sell == TableLines(ts[j2].rows)
                && forall j' :: 0 <= j' < j2 && IsUnlabelled(ts[j']) ==> j' == j1
    ensures (forall j :: 0 <= j < |ts| ==> !IsSellTable(ts[j]))
            && (forall j1, j2 :: 0 <= j1 < j2 < |ts| ==> !IsUnlabelled(ts[j1]) || !IsUnlabelled(ts[j2])) ==>
              FetchOutcome(Response(200, text, ts)).sell == []
  {
    if exists j :: 0 <= j < |ts| && IsSellTable(ts[j]) {
      SellFromLabel(text, ts);
    } else if exists j1, j2 :: 0 <= j1 < j2 < |ts| && IsUnlabelled(ts[j1]) && IsUnlabelled(ts[j2]) {
      SellFromSecondUnlabelled(text, ts);
    } else {
      SellNone(text, ts);
    }
  }

  /** The debug note is set exactly when both lists are empty, on every path. */
  lemma FetchDebugIff(resp: Response)
    ensures FetchOutcome(resp).debug != "" <==> FetchOutcome(resp).buy == [] && FetchOutcome(resp).sell == []
  {
  }

  /** A non-200 page gives empty lists and a note from which the status reads back;
      a page without tables gives empty lists and an excerpt of the page. */
  lemma FetchErrorPaths(resp: Response)
    ensures resp.status != 200 ==>
              var d := FetchOutcome(resp).debug;
              FetchOutcome(resp).buy == [] && FetchOutcome(resp).sell == []
              && |d| > |HttpErrorPrefix| && d[..|HttpErrorPrefix|] == HttpErrorPrefix && d[|d| - 1] == ')'
              && ParseInt(d[|HttpErrorPrefix|..|d| - 1]) == Some(resp.status)
    ensures resp.status == 200 && resp.tables == [] ==>
              FetchOutcome(resp).buy == [] && FetchOutcome(resp).sell == []
              && FetchOutcome(resp).debug == NoTablesPrefix + Excerpt(resp.text)
  {
    if resp.status != 200 {
      var n := IntToString(resp.status);
      var d := HttpErrorPrefix + n + ")";
      assert d[..|HttpErrorPrefix|] == HttpErrorPrefix;
      assert d[|HttpErrorPrefix|..|d| - 1] == n;
      IntToStringRoundTrip(resp.status);
    }
  }

  lemma {:induction false} ClassifyBounded(ts: seq<Table>)
    ensures Classify(ts).buy.Some? ==> |Classify(ts).buy.value| <= MaxRows
    ensures Classify(ts).sell.Some? ==> |Classify(ts).sell.value| <= MaxRows
    ensures forall k :: 0 <= k < |Classify(ts).unknown| ==> |Classify(ts).unknown[k].1| <= MaxRows
  {
    if ts != [] {
      ClassifyBounded(ts[..|ts| - 1]);
      TableLinesFacts(ts[|ts| - 1].rows, TableLines(ts[|ts| - 1].rows));
    }
  }

  /** Every list fetch_one returns has at most 10 lines. */
  lemma FetchBounded(resp: Response)
    ensures |FetchOutcome(resp).buy| <= MaxRows && |FetchOutcome(resp).sell| <= MaxRows
  {
    if resp.status == 200 && resp.tables != [] {
      var l := Classify(resp.tables);
      ClassifyBounded(resp.tables);
      assert forall k :: 0 <= k < |l.unknown| ==> |l.unknown[k].1| <= MaxRows;
    }
  }

  // ---------------------------------------------------------------------------
  // fetch_from_naver

  /** URLS, in insertion order. */
  const Sources: seq<(string, string)> := [
    ("기관(KOSPI)", "https://finance.naver.com/sise/sise_deal_rank.naver?sosok=01&investor_gubun=1000"),
    ("기관(KOSDAQ)", "https://finance.naver.com/sise/sise_deal_rank.naver?sosok=02&investor_gubun=1000"),
    ("외국인(KOSPI)", "https://finance.naver.com/sise/sise_deal_rank.naver?sosok=01&investor_gubun=2000"),
    ("외국인(KOSDAQ)", "https://finance.naver.com/sise/sise_deal_rank.naver?sosok=02&investor_gubun=2000")
  ]

  /** The section list recorded for one source: its buy list, the no-data line, or the error. */
  function SectionLines(a: Attempt): (r: seq<string>)
    ensures r != []
    ensures a.Raised? ==> r == ["에러: " + a.error]
    ensures a.Answered? && FetchOutcome(a.response).buy != [] ==> r == FetchOutcome(a.response).buy
    ensures a.Answered? && FetchOutcome(a.response).buy == [] ==> r == [NoDataLine]
  {
    match a
    case Raised(e) => ["에러: " + e]
    case Answered(resp) =>
      var one := FetchOutcome(resp);
      if one.buy != [] then one.buy else [NoDataLine]
  }

  /** A debug entry is recorded for a source whose page gave no buy list and a note. */
  predicate HasSectionDebug(a: Attempt)
  {
    a.Answered? && FetchOutcome(a.response).buy == [] && FetchOutcome(a.response).debug != ""
  }

  predicate DistinctKeys(sources: seq<(string, string)>)
  {
    forall i, j :: 0 <= i < j < |sources| ==> sources[i].0 != sources[j].0
  }

  lemma SourceKeysDistinct()
    ensures DistinctKeys(Sources)
  {
    assert Sources[0].0[0] == '기' && Sources[1].0[0] == '기';
    assert Sources[2].0[0] == '외' && Sources[3].0[0] == '외';
    assert Sources[0].0[6] == 'P' && Sources[1].0[6] == 'D';
    assert Sources[2].0[7] == 'P' && Sources[3].0[7] == 'D';
  }

  /** The section lists after visiting `sources` in order. */
  function SectionMap(sources: seq<(string, string)>, fetch: string -> Attempt): map<string, seq<string>>
  {
    if sources == [] then map[]
    else
      var (key, url) := sources[|sources| - 1];
      SectionMap(sources[..|sources| - 1], fetch)[key := SectionLines(fetch(url))]
  }

  /** The debug note recorded for one source, if any. */
  function SectionNote(a: Attempt): (r: Option<string>)
    ensures r.Some? <==> HasSectionDebug(a)
    ensures r.Some? ==> r.value == FetchOutcome(a.response).debug
  {
    if HasSectionDebug(a) then Some(FetchOutcome(a.response).debug) else None
  }

  /** The entries recorded after visiting `sources` in order, where `note(url)` says what,
      if anything, is recorded under the source's key. */
  function NoteMap(sources: seq<(string, string)>, note: string -> Option<string>): map<string, string>
  {
    if sources == [] then map[]
    else
      var (key, url) := sources[|sources| - 1];
      var m := NoteMap(sources[..|sources| - 1], note);
      if note(url).Some? then m[key := note(url).value] else m
  }

  /** The debug entries after visiting `sources` in order. */
  function DebugMap(sources: seq<(string, string)>, fetch: string -> Attempt): map<string, string>
  {
    NoteMap(sources, url => SectionNote(fetch(url)))
  }

  /** Removing the last source keeps the keys distinct. */
  lemma DistinctKeysInit(sources: seq<(string, string)>)
    requires sources != [] && DistinctKeys(sources)
    ensures DistinctKeys(sources[..|sources| - 1])
  {
    var init := sources[..|sources| - 1];
    forall i, j | 0 <= i < j < |init| ensures init[i].0 != init[j].0 {
      assert init[i] == sources[i] && init[j] == sources[j];
    }
  }

  /** The section map has exactly the source keys. */
  lemma {:induction false} SectionMapKeys(sources: seq<(string, string)>, fetch: string -> Attempt)
    ensures forall k :: k in SectionMap(sources, fetch) <==> exists i :: 0 <= i < |sources| && sources[i].0 == k
  {
    if sources != [] {
      var n := |sources| - 1;
      var init := sources[..n];
      SectionMapKeys(init, fetch);
      forall k ensures k in SectionMap(sources, fetch) <==> exists i :: 0 <= i < |sources| && sources[i].0 == k {
        if k in SectionMap(init, fetch) {
          var i :| 0 <= i < |init| && init[i].0 == k;
          assert sources[i] == init[i];
        }
        if exists i :: 0 <= i < |sources| && sources[i].0 == k {
          var i :| 0 <= i < |sources| && sources[i].0 == k;
          if i < n {
            assert init[i] == sources[i];
          }
        }
      }
    }
  }

  /** With distinct keys, each source's key holds that source's section list. */
  lemma {:induction false} SectionMapValues(sources: seq<(string, string)>, fetch: string -> Attempt)
    requires DistinctKeys(sources)
    ensures forall i :: 0 <= i < |sources| ==>
              sources[i].0 in SectionMap(sources, fetch)
              && SectionMap(sources, fetch)[sources[i].0] == SectionLines(fetch(sources[i].1))
  {
    if sources != [] {
      var n := |sources| - 1;
      var init := sources[..n];
      DistinctKeysInit(sources);
      SectionMapValues(init, fetch);
      forall i | 0 <= i < n
        ensures sources[i].0 in SectionMap(sources, fetch)
                && SectionMap(sources, fetch)[sources[i].0] == SectionLines(fetch(sources[i].1))
      {
        assert init[i] == sources[i];
        assert sources[i].0 != sources[n].0;
      }
    }
  }

  /** Every source key has a list, and it is that source's section list. */
  lemma SectionMapFacts(sources: seq<(string, string)>, fetch: string -> Attempt)
    requires DistinctKeys(sources)
    ensures forall k :: k in SectionMap(sources, fetch) <==> exists i :: 0 <= i < |sources| && sources[i].0 == k
    ensures forall i :: 0 <= i < |sources| ==>
              sources[i].0 in SectionMap(sources, fetch)
              && SectionMap(sources, fetch)[sources[i].0] == SectionLines(fetch(sources[i].1))
  {
    SectionMapKeys(sources, fetch);
    SectionMapValues(sources, fetch);
  }

  /** The note map has exactly the keys of the sources with a note. */
  lemma {:induction false} NoteMapKeys(sources: seq<(string, string)>, note: string -> Option<string>)
    ensures forall k :: k in NoteMap(sources, note) <==>
              exists i :: 0 <= i < |sources| && sources[i].0 == k && note(sources[i].1).Some?
  {
    if sources != [] {
      var n := |sources| - 1;
      var init := sources[..n];
      NoteMapKeys(init, note);
      forall k ensures k in NoteMap(sources, note) <==>
                 exists i :: 0 <= i < |sources| && sources[i].0 == k && note(sources[i].1).Some?
      {
        if k in NoteMap(init, note) {
          var i :| 0 <= i < |init| && init[i].0 == k && note(init[i].1).Some?;
          assert sources[i] == init[i];
        }
        if exists i :: 0 <= i < |sources| && sources[i].0 == k && note(sources[i].1).Some? {
          var i :| 0 <= i < |sources| && sources[i].0 == k && note(sources[i].1).Some?;
          if i < n {
            assert init[i] == sources[i];
          }
        }
      }
    }
  }

  /** With distinct keys, each entry of the note map holds its own source's note. */
  lemma {:induction false} NoteMapValues(sources: seq<(string, string)>, note: string -> Option<string>)
    requires DistinctKeys(sources)
    ensures forall i :: 0 <= i < |sources| && note(sources[i].1).Some? ==>
              sources[i].0 in NoteMap(sources, note) && NoteMap(sources, note)[sources[i].0] == note(sources[i].1).value
  {
    if sources != [] {
      var n := |sources| - 1;
      var init := sources[..n];
      DistinctKeysInit(sources);
      NoteMapValues(init, note);
      forall i | 0 <= i < n && note(sources[i].1).Some?
        ensures sources[i].0 in NoteMap(sources, note) && NoteMap(sources, note)[sources[i].0] == note(sources[i].1).value
      {
        assert init[i] == sources[i];
        assert sources[i].0 != sources[n].0;
      }
    }
  }

  /** A debug entry exists exactly for the sources with a debug note, and holds that note. */
  lemma DebugMapFacts(sources: seq<(string, string)>, fetch: string -> Attempt)
    requires DistinctKeys(sources)
    ensures forall k :: k in DebugMap(sources, fetch) <==>
              exists i :: 0 <= i < |sources| && sources[i].0 == k && HasSectionDebug(fetch(sources[i].1))
    ensures forall i :: 0 <= i < |sources| && HasSectionDebug(fetch(sources[i].1)) ==>
              sources[i].0 in DebugMap(sources, fetch)
              && DebugMap(sources, fetch)[sources[i].0] == FetchOutcome(fetch(sources[i].1).response).debug
  {
    var note := url => SectionNote(fetch(url));
    NoteMapKeys(sources, note);
    NoteMapValues(sources, note);
  }

  /** fetch_from_naver: `fetch(url)` stands for the request, decoding and table selection
      of `fetch_one(url)`; the rest of fetch_one is FetchOne run on the page it returns.
      Every source key gets a non-empty list; a debug entry exists only for keys whose
      page gave no buy list and a non-empty note. */
  method FetchFromNaver(fetch: string -> Attempt) returns (lists: map<string, seq<string>>, debug: map<string, string>)
    ensures lists == SectionMap(Sources, fetch) && debug == DebugMap(Sources, fetch)
    ensures forall k :: k in lists <==> exists i :: 0 <= i < |Sources| && Sources[i].0 == k
    ensures forall k :: k in lists ==> lists[k] != []
    ensures forall k :: k in debug <==>
              exists i :: 0 <= i < |Sources| && Sources[i].0 == k && HasSectionDebug(fetch(Sources[i].1))
  {
    lists := map[];
    debug := map[];
    for i := 0 to |Sources|
      invariant lists == SectionMap(Sources[..i], fetch)
      invariant debug == DebugMap(Sources[..i], fetch)
    {
      assert Sources[..i + 1][..i] == Sources[..i];
      var (key, url) := Sources[i];
      var attempt := fetch(url);
      match attempt {
        case Raised(e) =>
          lists := lists[key := ["에러: " + e]];
        case Answered(resp) =>
          var one := FetchOne(resp);
          if one.buy != [] {
            lists := lists[key := one.buy];
          } else {
            lists := lists[key := [NoDataLine]];
            if one.debug != "" {
              debug := debug[key := one.debug];
            }
          }
      }
    }
    assert Sources[..|Sources|] == Sources;
    SourceKeysDistinct();
    SectionMapFacts(Sources, fetch);
    DebugMapFacts(Sources, fetch);
  }
}
