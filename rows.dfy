/**
  The two row shapes of the page (`MemberRow`, `MembershipChangeRow`) and the
  row filter shared by `MemberList` and `MembershipChanges`: every table row
  whose third cell holds a link becomes one record, in document order.
*/
module Rows {
  import opened Wrappers
  import opened Dom

  /**
    One scraped record. `name`, `area`, `region` and `party` are text every
    row yields; the identifiers and the start date may be `nil`. A key that a
    row shape does not set (a change row's `party_id` and `start_date`) reads
    as `nil`, which is how it is modelled here.
  */
  datatype Record = Record(
    id: Option<string>,
    name: string,
    area: string,
    areaId: Option<string>,
    region: string,
    party: string,
    partyId: Option<string>,
    startDate: Option<string>)

  /** The table a row comes from. */
  datatype Table = MemberTable | ChangeTable

  /**
    Why a row stops the run: no `th` in the row (calling `text` on `nil`), no
    fourth cell to read a start date from, or a date text `Date.parse` refuses.
    The last two end in the debugger fallback of the source, here a failure.
  */
  datatype Failure =
    | MissingHeader(table: Table)
    | MissingDateCell
    | UnparseableDate(text: string)

  /**
    Collaborators whose code is not part of this model: `String#tidy`, and
    `Date.parse(...).to_s`, which yields an ISO-8601 date or fails.
  */
  datatype Externals = Externals(tidy: string -> string, parseDate: string -> Option<string>)

  /** XPath `tr[td[3][a]]`: the third cell (1-based) exists and holds a link. */
  predicate Qualifies(row: Row)
  {
    |row.cells| >= 3 && |row.cells[2].links| > 0
  }

  /** The rows `member_rows` selects, in document order. */
  function Kept(rows: seq<Row>): (kept: seq<Row>)
    ensures forall r :: r in kept <==> r in rows && Qualifies(r)
    ensures |kept| <= |rows|
  {
    if rows == [] then []
    else
      assert rows == [rows[0]] + rows[1..];
      (if Qualifies(rows[0]) then [rows[0]] else []) + Kept(rows[1..])
  }

  lemma {:induction false} KeptAppend(a: seq<Row>, b: seq<Row>)
    ensures Kept(a + b) == Kept(a) + Kept(b)
  {
    if a != [] {
      assert (a + b)[1..] == a[1..] + b;
      KeptAppend(a[1..], b);
    } else {
      assert a + b == b;
    }
  }

  /** `css('a/@wikidata').map(&:text).first`: the first `wikidata` attribute among the links that have one. */
  function FirstWikidata(links: seq<Link>): Option<string>
  {
    if links == [] then None
    else if links[0].wikidata.Some? then links[0].wikidata
    else FirstWikidata(links[1..])
  }

  /**
    The party identifier skips links without the attribute: it is `nil` only
    when no link has one, and otherwise it is the attribute of the first link
    that has one.
  */
  lemma {:induction false} FirstWikidataSpec(links: seq<Link>)
    ensures FirstWikidata(links).None? <==> forall i :: 0 <= i < |links| ==> links[i].wikidata.None?
    ensures FirstWikidata(links).Some? ==>
      exists i :: 0 <= i < |links| && links[i].wikidata == FirstWikidata(links) &&
        forall j :: 0 <= j < i ==> links[j].wikidata.None?
  {
    if links != [] && links[0].wikidata.None? {
      FirstWikidataSpec(links[1..]);
      assert forall i :: 0 < i < |links| ==> links[i] == links[1..][i - 1];
      if FirstWikidata(links).Some? {
        var k :| 0 <= k < |links| - 1 && links[1..][k].wikidata == FirstWikidata(links) &&
          forall j :: 0 <= j < k ==> links[1..][j].wikidata.None?;
        assert links[k + 1].wikidata == FirstWikidata(links);
      }
    }
  }

  /** `constituency_link && constituency_link.attr('wikidata')`: the first link's attribute, `nil` without a link. */
  function FirstLinkWikidata(cell: Cell): Option<string>
  {
    if cell.links == [] then None else cell.links[0].wikidata
  }

  /**
    `MemberRow#to_h`. The fields are evaluated in declaration order, so a row
    without `th` fails at `region` before `start_date` is looked at.
  */
  function MemberRow(row: Row, ext: Externals): (r: Result<Record, Failure>)
    requires Qualifies(row)
    ensures r.Success? <==>
      row.header.Some? && |row.cells| >= 4 && ext.parseDate(ext.tidy(row.cells[3].text)).Some?
    ensures row.header.None? ==> r == Failure(MissingHeader(MemberTable))
  {
    var td := row.cells;
    var member := td[2].links[0];
    if row.header.None? then Failure(MissingHeader(MemberTable))
    else if |td| < 4 then Failure(MissingDateCell)
    else
      var dateText := ext.tidy(td[3].text);
      match ext.parseDate(dateText)
      case None => Failure(UnparseableDate(dateText))
      case Some(date) =>
        Success(Record(
          id := member.wikidata,
          name := ext.tidy(member.text),
          area := ext.tidy(td[0].text),
          areaId := FirstLinkWikidata(td[0]),
          region := row.header.value,
          party := ext.tidy(td[1].text),
          partyId := FirstWikidata(td[1].links),
          startDate := Some(date)))
  }

  /** `MembershipChangeRow#to_h`: no party identifier, no start date, and the region is tidied. */
  function ChangeRow(row: Row, ext: Externals): (r: Result<Record, Failure>)
    requires Qualifies(row)
    ensures r.Failure? <==> row.header.None?
    ensures r.Failure? ==> r.error == MissingHeader(ChangeTable)
  {
    var td := row.cells;
    var member := td[2].links[0];
    if row.header.None? then Failure(MissingHeader(ChangeTable))
    else
      Success(Record(
        id := member.wikidata,
        name := ext.tidy(member.text),
        area := ext.tidy(td[0].text),
        areaId := FirstLinkWikidata(td[0]),
        region := ext.tidy(row.header.value),
        party := ext.tidy(td[1].text),
        partyId := None,
        startDate := None))
  }

  /**
    Where each field of a member record comes from: the member link in the
    third cell, the constituency in the first, the party in the second, the
    `th` text as it stands, and the parsed start date.
  */
  lemma MemberRowFields(row: Row, ext: Externals)
    requires Qualifies(row) && MemberRow(row, ext).Success?
    ensures
      var rec, member := MemberRow(row, ext).value, row.cells[2].links[0];
      && rec.id == member.wikidata
      && rec.name == ext.tidy(member.text)
      && rec.area == ext.tidy(row.cells[0].text)
      && rec.areaId == (if row.cells[0].links == [] then None else row.cells[0].links[0].wikidata)
      && rec.region == row.header.value
      && rec.party == ext.tidy(row.cells[1].text)
      && rec.partyId == FirstWikidata(row.cells[1].links)
      && rec.startDate == ext.parseDate(ext.tidy(row.cells[3].text))
  {
  }

  /** Where each field of a membership-change record comes from; unlike a member row, the region is tidied. */
  lemma ChangeRowFields(row: Row, ext: Externals)
    requires Qualifies(row) && ChangeRow(row, ext).Success?
    ensures
      var rec, member := ChangeRow(row, ext).value, row.cells[2].links[0];
      && rec.id == member.wikidata
      && rec.name == ext.tidy(member.text)
      && rec.area == ext.tidy(row.cells[0].text)
      && rec.areaId == (if row.cells[0].links == [] then None else row.cells[0].links[0].wikidata)
      && rec.region == ext.tidy(row.header.value)
      && rec.party == ext.tidy(row.cells[1].text)
      && rec.partyId.None? && rec.startDate.None?
  {
  }

  /** The row shape of a table. */
  function MapRow(t: Table, row: Row, ext: Externals): Result<Record, Failure>
    requires Qualifies(row)
  {
    match t
    case MemberTable => MemberRow(row, ext)
    case ChangeTable => ChangeRow(row, ext)
  }

  /** In both row shapes a row fails with a missing-header error for its own table exactly when it has no `th`. */
  lemma MapRowHeader(t: Table, row: Row, ext: Externals)
    requires Qualifies(row)
    ensures MapRow(t, row, ext) == Failure(MissingHeader(t)) <==> row.header.None?
  {
  }

  /** What each kept row yields, one entry per row. */
  function Outcomes(t: Table, rows: seq<Row>, ext: Externals): (r: seq<Result<Record, Failure>>)
    requires forall row :: row in rows ==> Qualifies(row)
    ensures |r| == |rows|
  {
    seq(|rows|, i requires 0 <= i < |rows| => MapRow(t, rows[i], ext))
  }

  /**
    `map` over the rows: the records, or the failure of the first row that
    fails. The row functions have no effects, so stopping at that row, as
    Ruby does, and looking at every outcome give the same answer.
  */
  function Collect(outcomes: seq<Result<Record, Failure>>): (r: Result<seq<Record>, Failure>)
    ensures r.Success? ==> |r.value| == |outcomes|
  {
    if outcomes == [] then Success([])
    else
      match outcomes[0]
      case Failure(e) => Failure(e)
      case Success(first) =>
        match Collect(outcomes[1..])
        case Failure(e) => Failure(e)
        case Success(rest) => Success([first] + rest)
  }

  /**
    Collecting succeeds exactly when every outcome is a record, and then keeps
    them in order; otherwise it reports the first failure.
  */
  lemma {:induction false} CollectSpec(outcomes: seq<Result<Record, Failure>>)
    ensures Collect(outcomes).Success? <==> forall i :: 0 <= i < |outcomes| ==> outcomes[i].Success?
    ensures Collect(outcomes).Success? ==>
      forall i :: 0 <= i < |outcomes| ==> outcomes[i] == Success(Collect(outcomes).value[i])
    ensures Collect(outcomes).Failure? ==>
      exists i :: 0 <= i < |outcomes| && outcomes[i] == Failure(Collect(outcomes).error) &&
        forall j :: 0 <= j < i ==> outcomes[j].Success?
  {
    if outcomes != [] {
      var tail := outcomes[1..];
      CollectSpec(tail);
      assert forall i :: 0 < i < |outcomes| ==> outcomes[i] == tail[i - 1];
      if outcomes[0].Success? && Collect(tail).Failure? {
        var k :| 0 <= k < |tail| && tail[k] == Failure(Collect(tail).error) &&
          forall j :: 0 <= j < k ==> tail[j].Success?;
        assert outcomes[k + 1] == Failure(Collect(outcomes).error);
      }
    }
  }

  lemma {:induction false} CollectAppend(a: seq<Result<Record, Failure>>, b: seq<Result<Record, Failure>>)
    ensures Collect(a + b).Success? <==> Collect(a).Success? && Collect(b).Success?
    ensures Collect(a + b).Success? ==> Collect(a + b).value == Collect(a).value + Collect(b).value
  {
    if a == [] {
      assert a + b == b;
    } else {
      assert (a + b)[0] == a[0] && (a + b)[1..] == a[1..] + b;
      CollectAppend(a[1..], b);
      if Collect(a + b).Success? {
        assert Collect(a + b).value == [a[0].value] + Collect(a[1..] + b).value;
      }
    }
  }

  /** The `members` field of `MemberList` or `MembershipChanges`: the kept rows, mapped by the table's row shape. */
  function Records(t: Table, rows: seq<Row>, ext: Externals): (r: Result<seq<Record>, Failure>)
    ensures r.Success? ==> |r.value| == |Kept(rows)|
  {
    Collect(Outcomes(t, Kept(rows), ext))
  }

  /**
    A table's records: it yields records exactly when every kept row maps,
    the i-th record being that of the i-th kept row; otherwise the failure of
    the first kept row that fails.
  */
  lemma RecordsSpec(t: Table, rows: seq<Row>, ext: Externals)
    ensures Records(t, rows, ext).Success? <==>
      forall i :: 0 <= i < |Kept(rows)| ==> MapRow(t, Kept(rows)[i], ext).Success?
    ensures Records(t, rows, ext).Success? ==>
      forall i :: 0 <= i < |Kept(rows)| ==> MapRow(t, Kept(rows)[i], ext) == Success(Records(t, rows, ext).value[i])
    ensures Records(t, rows, ext).Failure? ==>
      exists i :: 0 <= i < |Kept(rows)| && MapRow(t, Kept(rows)[i], ext) == Failure(Records(t, rows, ext).error) &&
        forall j :: 0 <= j < i ==> MapRow(t, Kept(rows)[j], ext).Success?
  {
    var kept := Kept(rows);
    RecordsSucceed(t, kept, ext);
    RecordsInOrder(t, kept, ext);
    RecordsFirstFailure(t, kept, ext);
  }

  /** Mapping qualifying rows succeeds exactly when each row maps. */
  lemma RecordsSucceed(t: Table, kept: seq<Row>, ext: Externals)
    requires forall row :: row in kept ==> Qualifies(row)
    ensures Collect(Outcomes(t, kept, ext)).Success? <==>
      forall i :: 0 <= i < |kept| ==> MapRow(t, kept[i], ext).Success?
  {
    var outcomes := Outcomes(t, kept, ext);
    CollectSpec(outcomes);
    assert forall i :: 0 <= i < |kept| ==> outcomes[i] == MapRow(t, kept[i], ext);
  }

  /** A successful mapping of qualifying rows holds the i-th row's record at position i. */
  lemma RecordsInOrder(t: Table, kept: seq<Row>, ext: Externals)
    requires forall row :: row in kept ==> Qualifies(row)
    ensures Collect(Outcomes(t, kept, ext)).Success? ==>
      forall i :: 0 <= i < |kept| ==> MapRow(t, kept[i], ext) == Success(Collect(Outcomes(t, kept, ext)).value[i])
  {
    var outcomes := Outcomes(t, kept, ext);
    CollectSpec(outcomes);
    assert forall i :: 0 <= i < |kept| ==> outcomes[i] == MapRow(t, kept[i], ext);
  }

  /** A failed mapping of qualifying rows reports the failure of the first row that fails. */
  lemma RecordsFirstFailure(t: Table, kept: seq<Row>, ext: Externals)
    requires forall row :: row in kept ==> Qualifies(row)
    ensures Collect(Outcomes(t, kept, ext)).Failure? ==>
      exists i :: 0 <= i < |kept| && MapRow(t, kept[i], ext) == Failure(Collect(Outcomes(t, kept, ext)).error) &&
        forall j :: 0 <= j < i ==> MapRow(t, kept[j], ext).Success?
  {
    var outcomes := Outcomes(t, kept, ext);
    CollectSpec(outcomes);
    if Collect(outcomes).Failure? {
      var k :| 0 <= k < |kept| && outcomes[k] == Failure(Collect(outcomes).error) &&
        forall j :: 0 <= j < k ==> outcomes[j].Success?;
      assert outcomes[k] == MapRow(t, kept[k], ext);
      assert forall j :: 0 <= j < k ==> outcomes[j] == MapRow(t, kept[j], ext);
    }
  }

  /**
    Splitting a table: the records of `a + b` are those of `a` followed by
    those of `b`, and the whole succeeds exactly when both parts do.
  */
  lemma RecordsAppend(t: Table, a: seq<Row>, b: seq<Row>, ext: Externals)
    ensures Records(t, a + b, ext).Success? <==> Records(t, a, ext).Success? && Records(t, b, ext).Success?
    ensures Records(t, a + b, ext).Success? ==>
      Records(t, a + b, ext).value == Records(t, a, ext).value + Records(t, b, ext).value
  {
    KeptAppend(a, b);
    var ka, kb := Kept(a), Kept(b);
    OutcomesAppend(t, ka, kb, ext);
    CollectAppend(Outcomes(t, ka, ext), Outcomes(t, kb, ext));
  }

  /** The outcomes of two runs of rows, one after the other. */
  lemma OutcomesAppend(t: Table, x: seq<Row>, y: seq<Row>, ext: Externals)
    requires forall row :: row in x ==> Qualifies(row)
    requires forall row :: row in y ==> Qualifies(row)
    ensures Outcomes(t, x + y, ext) == Outcomes(t, x, ext) + Outcomes(t, y, ext)
  {
    var whole, left, right := Outcomes(t, x + y, ext), Outcomes(t, x, ext), Outcomes(t, y, ext);
    forall i | 0 <= i < |whole|
      ensures whole[i] == (left + right)[i]
    {
      if i >= |x| {
        assert (x + y)[i] == y[i - |x|];
      }
    }
  }

  /** A row without a link in its third cell contributes nothing and cannot fail. */
  lemma SkippedRow(t: Table, row: Row, ext: Externals)
    requires !Qualifies(row)
    ensures Records(t, [row], ext) == Success([])
  {
  }

  /** A qualifying row contributes exactly its own record, or its failure. */
  lemma KeptRow(t: Table, row: Row, ext: Externals)
    requires Qualifies(row)
    ensures MapRow(t, row, ext).Success? ==> Records(t, [row], ext) == Success([MapRow(t, row, ext).value])
    ensures MapRow(t, row, ext).Failure? ==> Records(t, [row], ext) == Failure(MapRow(t, row, ext).error)
  {
    assert [row][1..] == [];
    assert Kept([row]) == [row];
    var outcomes := Outcomes(t, [row], ext);
    assert outcomes == [MapRow(t, row, ext)];
    assert outcomes[1..] == [];
    assert Collect(outcomes[1..]) == Success([]);
    if MapRow(t, row, ext).Success? {
      assert [MapRow(t, row, ext).value] + [] == [MapRow(t, row, ext).value];
    }
  }
}
