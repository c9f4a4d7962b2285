/**
 * The seat watch of itu_obs_ders_kayit.py: reading capacity and enrolled
 * counts out of a course-schedule table, and merging the tables of several
 * branch endpoints into the seats of the watched CRNs and the list of CRNs
 * that still have a free seat.
 */
module DersKayitSeats {
  import opened Wrappers
  import opened PyText
  import opened OrderedDict
  import opened OptionSeqs
  import opened Seqs

  // ---------------------------------------------------------------------
  // _parse_table_for_crns
  // ---------------------------------------------------------------------

  /** A `<tr>` as the stripped texts of its `<td>` cells, in order. */
  type Row = seq<string>

  /** One course's `{"kontenjan", "kayitli", "bos"}`: capacity, enrolled and free seats. */
  datatype SeatInfo = SeatInfo(capacity: int, enrolled: int, free: int)

  const CrnColumn := 0
  const CapacityColumn := 9
  const EnrolledColumn := 10

  /** Rows with fewer cells than this are not course rows. */
  const MinCells := 11

  /** `int(t) if t.isdigit() else 0`. */
  function CountOf(t: string): (n: int)
    ensures n >= 0
    ensures IsDigits(t) ==> n == DigitsValue(t)
    ensures !IsDigits(t) ==> n == 0
  {
    if IsDigits(t) then DigitsValue(t) else 0
  }

  /** Python's `max(a, b)`. */
  function Max(a: int, b: int): int {
    if a >= b then a else b
  }

  /** The seats of a row from its capacity and enrolled texts; free is `max(capacity - enrolled, 0)`. */
  function SeatsOf(capacityText: string, enrolledText: string): SeatInfo {
    var capacity := CountOf(capacityText);
    var enrolled := CountOf(enrolledText);
    SeatInfo(capacity, enrolled, Max(capacity - enrolled, 0))
  }

  /**
   * Free seats are never negative and never more than the capacity; there is
   * a free seat exactly when fewer are enrolled than the capacity, and then
   * free and enrolled seats add up to the capacity.
   */
  lemma SeatsOfFree(capacityText: string, enrolledText: string)
    ensures var s := SeatsOf(capacityText, enrolledText);
            && 0 <= s.free <= s.capacity
            && (s.free > 0 <==> s.capacity > s.enrolled)
            && (s.free > 0 ==> s.free + s.enrolled == s.capacity)
  {
  }

  /** A full course (30 of 30) has no free seat; 28 of 30 leaves two; a count that is not digits is 0. */
  lemma SeatsOfExamples()
    ensures SeatsOf("30", "30").free == 0
    ensures SeatsOf("30", "28").free == 2
    ensures SeatsOf("", "5") == SeatInfo(0, 5, 0)
  {
    assert "30"[..1] == "3" && "28"[..1] == "2" && "5"[..0] == "";
    assert DigitsValue("3") == 3 && DigitsValue("2") == 2;
  }

  /**
   * What a row contributes: its CRN and seats, when it has enough cells and
   * its CRN is non-empty and watched.
   */
  function RowEntry(row: Row, watch: seq<string>): Option<(string, SeatInfo)> {
    if |row| < MinCells then None
    else
      var crn := row[CrnColumn];
      if crn == "" || crn !in watch then None
      else Some((crn, SeatsOf(row[CapacityColumn], row[EnrolledColumn])))
  }

  /** What each row contributes; the first row is the header and contributes nothing. */
  function RowEntries(rows: seq<Row>, watch: seq<string>): (es: seq<Option<(string, SeatInfo)>>)
    ensures |es| == |rows|
    ensures forall i :: 0 <= i < |rows| ==> es[i] == if i == 0 then None else RowEntry(rows[i], watch)
  {
    seq(|rows|, i requires 0 <= i < |rows| => if i == 0 then None else RowEntry(rows[i], watch))
  }

  /** The table `_parse_table_for_crns` builds: each row's entry assigned in turn. */
  function ParseTable(rows: seq<Row>, watch: seq<string>): (d: Dict<string, SeatInfo>)
    ensures d.Valid()
  {
    FromPairsValid(Somes(RowEntries(rows, watch)));
    FromPairs(Somes(RowEntries(rows, watch)))
  }

  /** The body of the loop over the rows: `(crn, seats)` when `ok`. */
  method ReadRow(row: Row, watch: seq<string>) returns (ok: bool, crn: string, info: SeatInfo)
    ensures RowEntry(row, watch) == if ok then Some((crn, info)) else None
  {
    ok, crn, info := false, "", SeatInfo(0, 0, 0);
    if |row| < MinCells {
      return;
    }
    crn := row[CrnColumn];
    if crn == "" || crn !in watch {
      return;
    }
    var capacityText := row[CapacityColumn];
    var enrolledText := row[EnrolledColumn];
    var capacity := if IsDigits(capacityText) then DigitsValue(capacityText) else 0;
    var enrolled := if IsDigits(enrolledText) then DigitsValue(enrolledText) else 0;
    var free := Max(capacity - enrolled, 0);
    ok, info := true, SeatInfo(capacity, enrolled, free);
  }

  /** `_parse_table_for_crns(soup, watch)` over the rows of the page. */
  method ParseTableForCrns(rows: seq<Row>, watch: seq<string>) returns (table: Dict<string, SeatInfo>)
    ensures table == ParseTable(rows, watch)
  {
    table := Empty();
    if |rows| == 0 {
      return;
    }
    ghost var es := RowEntries(rows, watch);
    assert es[..1] == [None];
    for i := 1 to |rows|
      invariant table == FromPairs(Somes(es[..i]))
    {
      var ok, crn, info := ReadRow(rows[i], watch);
      SomesTakeStep(es, i);
      if ok {
        FromPairsSnoc(Somes(es[..i]), (crn, info));
        table := table.Put(crn, info);
      } else {
        AppendEmpty(Somes(es[..i]));
      }
    }
    TakeAll(es);
  }

  /** Every entry of the table comes from a row after the header that names that CRN with those seats. */
  lemma ParseTableSource(rows: seq<Row>, watch: seq<string>, crn: string)
    requires crn in ParseTable(rows, watch).entries
    ensures exists i :: 1 <= i < |rows| && RowEntry(rows[i], watch) == Some((crn, ParseTable(rows, watch).entries[crn]))
  {
    var es := RowEntries(rows, watch);
    var ps := Somes(es);
    FromPairsSource(ps, crn);
    var k :| 0 <= k < |ps| && ps[k] == (crn, FromPairs(ps).entries[crn]);
    InSomes(es, ps[k]);
    var i :| 0 <= i < |es| && es[i] == Some(ps[k]);
    assert 1 <= i < |rows| && RowEntry(rows[i], watch) == Some(ps[k]);
  }

  /** Every row after the header that contributes puts its CRN in the table. */
  lemma ParseTableHas(rows: seq<Row>, watch: seq<string>, i: nat)
    requires 1 <= i < |rows| && RowEntry(rows[i], watch).Some?
    ensures RowEntry(rows[i], watch).value.0 in ParseTable(rows, watch).entries
  {
    var es := RowEntries(rows, watch);
    var ps := Somes(es);
    assert es[i] == RowEntry(rows[i], watch);
    InSomes(es, RowEntry(rows[i], watch).value);
    var k :| 0 <= k < |ps| && ps[k] == RowEntry(rows[i], watch).value;
    FromPairsHas(ps, k);
  }

  /**
   * A CRN is in the table exactly when some row after the header has at
   * least eleven cells and that CRN in its first cell, and the CRN is
   * non-empty and watched; its seats are read from such a row.
   */
  lemma ParseTableKeys(rows: seq<Row>, watch: seq<string>, crn: string)
    ensures crn in ParseTable(rows, watch).entries <==>
              crn != "" && crn in watch &&
              exists i :: 1 <= i < |rows| && |rows[i]| >= MinCells && rows[i][CrnColumn] == crn
    ensures crn in ParseTable(rows, watch).entries ==>
              exists i :: 1 <= i < |rows| && |rows[i]| >= MinCells && rows[i][CrnColumn] == crn &&
                ParseTable(rows, watch).entries[crn] == SeatsOf(rows[i][CapacityColumn], rows[i][EnrolledColumn])
  {
    if crn in ParseTable(rows, watch).entries {
      ParseTableSource(rows, watch, crn);
    }
    if crn != "" && crn in watch && exists i :: 1 <= i < |rows| && |rows[i]| >= MinCells && rows[i][CrnColumn] == crn {
      var i :| 1 <= i < |rows| && |rows[i]| >= MinCells && rows[i][CrnColumn] == crn;
      ParseTableHas(rows, watch, i);
    }
  }

  /** A later row with the same CRN overwrites: the last row naming a CRN gives its seats. */
  lemma ParseTableLastRowWins(rows: seq<Row>, watch: seq<string>, i: nat, crn: string, info: SeatInfo)
    requires 1 <= i < |rows| && RowEntry(rows[i], watch) == Some((crn, info))
    requires forall j :: i < j < |rows| ==> RowEntry(rows[j], watch).None? || RowEntry(rows[j], watch).value.0 != crn
    ensures crn in ParseTable(rows, watch).entries && ParseTable(rows, watch).entries[crn] == info
  {
    FromSomesLastWins(RowEntries(rows, watch), i, crn, info);
  }

  /** The first row is a header: whatever it holds, the table is the same. */
  lemma ParseTableSkipsHeader(rows: seq<Row>, header: Row, watch: seq<string>)
    requires |rows| > 0
    ensures ParseTable([header] + rows[1..], watch) == ParseTable(rows, watch)
  {
    assert RowEntries([header] + rows[1..], watch) == RowEntries(rows, watch);
  }

  // ---------------------------------------------------------------------
  // check_kontenjan
  // ---------------------------------------------------------------------

  /** What one endpoint yields: the rows of its page, or None when the request failed or was not answered with 200. */
  type Page = Option<seq<Row>>

  /** The table of one endpoint's page; nothing for a failed request. */
  function PageSeats(page: Page, watch: seq<string>): (d: Dict<string, SeatInfo>)
    ensures d.Valid()
  {
    match page
    case None => Empty()
    case Some(rows) => ParseTable(rows, watch)
  }

  /** Every endpoint's `parsed.items()`, endpoint after endpoint. */
  function EndpointPairs(urls: seq<string>, fetch: string -> Page, watch: seq<string>): seq<(string, SeatInfo)> {
    if urls == [] then []
    else EndpointPairs(urls[..|urls| - 1], fetch, watch) + PageSeats(fetch(urls[|urls| - 1]), watch).Items()
  }

  /** The endpoint pairs of a longer prefix of the URLs extend by the next endpoint's items. */
  lemma EndpointPairsStep(urls: seq<string>, fetch: string -> Page, watch: seq<string>, i: nat)
    requires i < |urls|
    ensures EndpointPairs(urls[..i + 1], fetch, watch) ==
              EndpointPairs(urls[..i], fetch, watch) + PageSeats(fetch(urls[i]), watch).Items()
  {
    TakeSnoc(urls, i);
    assert urls[..i + 1][..i] == urls[..i];
  }

  /** A CRN no endpoint's table has is not merged. */
  lemma {:induction false} EndpointAbsent(urls: seq<string>, fetch: string -> Page, watch: seq<string>, crn: string)
    requires forall j :: 0 <= j < |urls| ==> crn !in PageSeats(fetch(urls[j]), watch).entries
    ensures crn !in FromPairsFirst(EndpointPairs(urls, fetch, watch)).entries
  {
    if urls != [] {
      var front := urls[..|urls| - 1];
      var last := PageSeats(fetch(urls[|urls| - 1]), watch);
      assert forall j :: 0 <= j < |front| ==> front[j] == urls[j];
      EndpointAbsent(front, fetch, watch, crn);
      FromPairsFirstFresh(EndpointPairs(front, fetch, watch), last.Items(), crn);
      FromPairsFirstItems(last, crn);
    }
  }

  /** A CRN some endpoint's table has is merged. */
  lemma EndpointHas(urls: seq<string>, fetch: string -> Page, watch: seq<string>, j: nat, crn: string)
    requires j < |urls| && crn in PageSeats(fetch(urls[j]), watch).entries
    ensures crn in FromPairsFirst(EndpointPairs(urls, fetch, watch)).entries
  {
    var page := PageSeats(fetch(urls[j]), watch);
    var before := EndpointPairs(urls[..j], fetch, watch);
    EndpointPairsStep(urls, fetch, watch, j);
    if crn in FromPairsFirst(before).entries {
      FromPairsFirstKeep(before, page.Items(), crn);
    } else {
      FromPairsFirstFresh(before, page.Items(), crn);
      FromPairsFirstItems(page, crn);
    }
    EndpointKeep(urls, fetch, watch, j + 1, crn);
  }

  /** A CRN merged from the first endpoints keeps its seats whatever later endpoints report. */
  lemma {:induction false} EndpointKeep(urls: seq<string>, fetch: string -> Page, watch: seq<string>, m: nat, crn: string)
    requires m <= |urls|
    requires crn in FromPairsFirst(EndpointPairs(urls[..m], fetch, watch)).entries
    ensures crn in FromPairsFirst(EndpointPairs(urls, fetch, watch)).entries
    ensures FromPairsFirst(EndpointPairs(urls, fetch, watch)).entries[crn] ==
              FromPairsFirst(EndpointPairs(urls[..m], fetch, watch)).entries[crn]
    decreases |urls|
  {
    if m == |urls| {
      TakeAll(urls);
    } else {
      var front := urls[..|urls| - 1];
      assert front[..m] == urls[..m];
      EndpointKeep(front, fetch, watch, m, crn);
      FromPairsFirstKeep(EndpointPairs(front, fetch, watch), PageSeats(fetch(urls[|urls| - 1]), watch).Items(), crn);
    }
  }

  /** The seats `check_kontenjan` collects: the endpoints' items merged so that the first report of a CRN wins. */
  function MergedSeats(urls: Dict<string, string>, fetch: string -> Page, watch: seq<string>): (d: Dict<string, SeatInfo>)
    requires urls.Valid()
    ensures d.Valid()
  {
    FromPairsValid(EndpointPairs(urls.Values(), fetch, watch));
    FromPairsFirst(EndpointPairs(urls.Values(), fetch, watch))
  }

  /** The CRNs among `keys` whose seats show a free place, in the order of `keys`. */
  function OpenIn(keys: seq<string>, seats: map<string, SeatInfo>): seq<string>
    requires forall i :: 0 <= i < |keys| ==> keys[i] in seats
  {
    if keys == [] then []
    else
      var last := keys[|keys| - 1];
      OpenIn(keys[..|keys| - 1], seats) + if seats[last].free > 0 then [last] else []
  }

  /** The open CRNs of a merged table, in its insertion order. */
  function OpenCrns(d: Dict<string, SeatInfo>): seq<string>
    requires d.Valid()
  {
    OpenIn(d.order, d.entries)
  }

  /** The open CRNs of a longer prefix of the keys extend by the next key when it is open. */
  lemma OpenInStep(keys: seq<string>, seats: map<string, SeatInfo>, j: nat)
    requires forall i :: 0 <= i < |keys| ==> keys[i] in seats
    requires j < |keys|
    ensures OpenIn(keys[..j + 1], seats) == OpenIn(keys[..j], seats) + if seats[keys[j]].free > 0 then [keys[j]] else []
  {
    TakeSnoc(keys, j);
    assert keys[..j + 1][..j] == keys[..j];
  }

  /** Merging one endpoint's items into the seats, first report wins. */
  method MergeInto(seats: Dict<string, SeatInfo>, parsed: Dict<string, SeatInfo>, ghost before: seq<(string, SeatInfo)>)
    returns (merged: Dict<string, SeatInfo>)
    requires parsed.Valid() && seats == FromPairsFirst(before)
    ensures merged == FromPairsFirst(before + parsed.Items())
  {
    merged := seats;
    ghost var ps := parsed.Items();
    assert ps[..0] == [];
    AppendEmpty(before);
    for j := 0 to |parsed.order|
      invariant merged == FromPairsFirst(before + ps[..j])
    {
      var crn := parsed.order[j];
      var info := parsed.entries[crn];
      AppendTakeSnoc(before, ps, j);
      FromPairsFirstSnoc(before + ps[..j], (crn, info));
      if crn !in merged.entries {
        merged := merged.Put(crn, info);
      }
    }
    TakeAll(ps);
  }

  /** One endpoint's turn in `check_kontenjan`: a page that came back is parsed and merged, a failed one skipped. */
  method MergePage(seats: Dict<string, SeatInfo>, page: Page, watch: seq<string>, ghost before: seq<(string, SeatInfo)>)
    returns (merged: Dict<string, SeatInfo>)
    requires seats == FromPairsFirst(before)
    ensures merged == FromPairsFirst(before + PageSeats(page, watch).Items())
  {
    if page.Some? {
      var parsed := ParseTableForCrns(page.value, watch);
      merged := MergeInto(seats, parsed, before);
    } else {
      AppendEmpty(before);
      merged := seats;
    }
  }

  /** `open_crns`: the merged CRNs with a free seat, in insertion order. */
  method OpenOf(seats: Dict<string, SeatInfo>) returns (open: seq<string>)
    requires seats.Valid()
    ensures open == OpenCrns(seats)
  {
    open := [];
    for j := 0 to |seats.order|
      invariant open == OpenIn(seats.order[..j], seats.entries)
    {
      OpenInStep(seats.order, seats.entries, j);
      var crn := seats.order[j];
      if seats.entries[crn].free > 0 {
        open := open + [crn];
      } else {
        AppendEmpty(open);
      }
    }
    TakeAll(seats.order);
  }

  /**
   * `check_kontenjan(session, watch)` over the URL table: `fetch` gives what
   * each endpoint's request yields. Returns the open CRNs and the merged seats.
   */
  method CheckKontenjan(urls: Dict<string, string>, fetch: string -> Page, watch: seq<string>)
    returns (open: seq<string>, seats: Dict<string, SeatInfo>)
    requires urls.Valid()
    ensures seats == MergedSeats(urls, fetch, watch)
    ensures open == OpenCrns(seats)
  {
    if urls.order == [] {
      CheckKontenjanEmpty(urls, fetch, watch);
      return [], Empty();
    }
    ghost var vs := urls.Values();
    seats := Empty();
    assert vs[..0] == [];
    for i := 0 to |urls.order|
      invariant seats == FromPairsFirst(EndpointPairs(vs[..i], fetch, watch))
    {
      var url := urls.entries[urls.order[i]];
      assert url == vs[i];
      EndpointPairsStep(vs, fetch, watch, i);
      seats := MergePage(seats, fetch(url), watch, EndpointPairs(vs[..i], fetch, watch));
    }
    TakeAll(vs);
    FromPairsValid(EndpointPairs(vs, fetch, watch));
    open := OpenOf(seats);
  }

  /** With no endpoints the result is `([], {})`, so the early return changes nothing. */
  lemma CheckKontenjanEmpty(urls: Dict<string, string>, fetch: string -> Page, watch: seq<string>)
    requires urls.Valid() && urls.order == []
    ensures MergedSeats(urls, fetch, watch) == Empty()
    ensures OpenCrns(MergedSeats(urls, fetch, watch)) == []
  {
    assert urls.Values() == [];
  }

  /**
   * The endpoints are asked in the URL table's order and the first one whose
   * table has a CRN decides its seats: later endpoints do not overwrite it.
   */
  lemma FirstEndpointWins(urls: Dict<string, string>, fetch: string -> Page, watch: seq<string>, i: nat, crn: string)
    requires urls.Valid() && i < |urls.order|
    requires crn in PageSeats(fetch(urls.entries[urls.order[i]]), watch).entries
    requires forall j :: 0 <= j < i ==> crn !in PageSeats(fetch(urls.entries[urls.order[j]]), watch).entries
    ensures crn in MergedSeats(urls, fetch, watch).entries
    ensures MergedSeats(urls, fetch, watch).entries[crn] == PageSeats(fetch(urls.entries[urls.order[i]]), watch).entries[crn]
  {
    var vs := urls.Values();
    var page := PageSeats(fetch(vs[i]), watch);
    var before := EndpointPairs(vs[..i], fetch, watch);
    EndpointAbsent(vs[..i], fetch, watch, crn);
    FromPairsFirstFresh(before, page.Items(), crn);
    FromPairsFirstItems(page, crn);
    EndpointPairsStep(vs, fetch, watch, i);
    EndpointKeep(vs, fetch, watch, i + 1, crn);
  }

  /** A CRN is merged exactly when some endpoint's table has it. */
  lemma MergedSeatsKeys(urls: Dict<string, string>, fetch: string -> Page, watch: seq<string>, crn: string)
    requires urls.Valid()
    ensures crn in MergedSeats(urls, fetch, watch).entries <==>
              exists j :: 0 <= j < |urls.order| && crn in PageSeats(fetch(urls.entries[urls.order[j]]), watch).entries
  {
    var vs := urls.Values();
    if exists j :: 0 <= j < |urls.order| && crn in PageSeats(fetch(urls.entries[urls.order[j]]), watch).entries {
      var j :| 0 <= j < |urls.order| && crn in PageSeats(fetch(urls.entries[urls.order[j]]), watch).entries;
      EndpointHas(vs, fetch, watch, j, crn);
    } else {
      EndpointAbsent(vs, fetch, watch, crn);
    }
  }

  /** A CRN is open exactly when it is in the table with a free seat; none is listed twice. */
  lemma OpenCrnsExactly(d: Dict<string, SeatInfo>)
    requires d.Valid()
    ensures forall crn :: crn in OpenCrns(d) <==> crn in d.entries && d.entries[crn].free > 0
    ensures forall a, b :: 0 <= a < b < |OpenCrns(d)| ==> OpenCrns(d)[a] != OpenCrns(d)[b]
  {
    OpenInMembers(d.order, d.entries);
    OpenInDistinct(d.order, d.entries);
  }

  /** The open keys are the keys with a free seat. */
  lemma {:induction false} OpenInMembers(keys: seq<string>, seats: map<string, SeatInfo>)
    requires forall i :: 0 <= i < |keys| ==> keys[i] in seats
    ensures forall crn :: crn in OpenIn(keys, seats) <==> crn in keys && seats[crn].free > 0
  {
    if keys != [] {
      var front := keys[..|keys| - 1];
      OpenInMembers(front, seats);
      FrontLast(keys);
    }
  }

  /** Distinct keys give distinct open keys. */
  lemma {:induction false} OpenInDistinct(keys: seq<string>, seats: map<string, SeatInfo>)
    requires forall i :: 0 <= i < |keys| ==> keys[i] in seats
    requires forall i, j :: 0 <= i < j < |keys| ==> keys[i] != keys[j]
    ensures forall a, b :: 0 <= a < b < |OpenIn(keys, seats)| ==> OpenIn(keys, seats)[a] != OpenIn(keys, seats)[b]
  {
    if keys != [] {
      var front := keys[..|keys| - 1];
      OpenInDistinct(front, seats);
      OpenInMembers(front, seats);
      assert keys[|keys| - 1] !in front;
    }
  }
}
