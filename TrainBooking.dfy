/**
  Lab-2: a table of trains loaded from CSV rows, passenger requests granted in
  order against the available seats, the table written back, and a revenue
  report over all requests.

  The `trains` dict is a `TrainTable` object; its key order (the order rows
  were first read) is kept next to the map, because the written file and the
  revenue report follow it.
 */
module TrainBooking {
  import opened Common

  datatype Train = Train(
    name: string,
    source: string,
    destination: string,
    totalSeats: int,
    availableSeats: int,
    totalFare: int)

  datatype Passenger = Passenger(name: string, trainId: string, tickets: int)

  /**
    One CSV row as `csv.DictReader` hands it over, projected on the seven
    columns of the header the file is written with.
   */
  datatype Row = Row(
    trainId: string,
    trainName: string,
    sourceStation: string,
    destinationStation: string,
    totalSeats: string,
    availableSeats: string,
    totalFare: string)

  // ---------------------------------------------------------------------------
  // Seat checks and bookings on values

  /** `check_seat_availability`: the train is known and has at least `n` seats left. */
  function CheckSeatAvailability(trains: map<string, Train>, id: string, n: int): (ok: bool)
    ensures ok <==> id in trains && n <= trains[id].availableSeats
  {
    if id in trains then
      var train := trains[id];
      if train.availableSeats >= n then true else false
    else false
  }

  /** The dict after `update_seat_availability(trains, id, n)`. */
  function Book(trains: map<string, Train>, id: string, n: int): (r: map<string, Train>)
    ensures r.Keys == trains.Keys
    ensures forall k :: k in trains && k != id ==> r[k] == trains[k]
    ensures id in trains ==>
      r[id] == trains[id].(availableSeats := trains[id].availableSeats - n)
  {
    if id in trains then
      var train := trains[id];
      trains[id := train.(availableSeats := train.availableSeats - n)]
    else trains
  }

  /** The dict after the booking loop of `main` has handled `ps` in order. */
  function BookAll(trains: map<string, Train>, ps: seq<Passenger>): (r: map<string, Train>)
    ensures r.Keys == trains.Keys
    ensures forall k :: k in trains ==> r[k] == trains[k].(availableSeats := r[k].availableSeats)
    ensures forall k :: k in trains && 0 <= trains[k].availableSeats ==> 0 <= r[k].availableSeats
  {
    if ps == [] then trains
    else
      var t := BookAll(trains, ps[..|ps| - 1]);
      var p := ps[|ps| - 1];
      if CheckSeatAvailability(t, p.trainId, p.tickets) then Book(t, p.trainId, p.tickets) else t
  }

  /** Whether each request in `ps` is confirmed, in order. */
  function Confirmations(trains: map<string, Train>, ps: seq<Passenger>): (c: seq<bool>)
    ensures |c| == |ps|
  {
    if ps == [] then []
    else
      var p := ps[|ps| - 1];
      Confirmations(trains, ps[..|ps| - 1]) + [CheckSeatAvailability(BookAll(trains, ps[..|ps| - 1]), p.trainId, p.tickets)]
  }

  /** Tickets of the confirmed requests among `ps` naming train `id`. */
  function ConfirmedTickets(trains: map<string, Train>, ps: seq<Passenger>, id: string): int {
    if ps == [] then 0
    else
      var p := ps[|ps| - 1];
      var granted := p.trainId == id && CheckSeatAvailability(BookAll(trains, ps[..|ps| - 1]), id, p.tickets);
      ConfirmedTickets(trains, ps[..|ps| - 1], id) + (if granted then p.tickets else 0)
  }

  /** A train's seats end as its initial seats minus the tickets confirmed on it. */
  lemma {:induction false} SeatAccounting(trains: map<string, Train>, ps: seq<Passenger>, id: string)
    requires id in trains
    ensures BookAll(trains, ps)[id].availableSeats == trains[id].availableSeats - ConfirmedTickets(trains, ps, id)
  {
    if ps != [] {
      SeatAccounting(trains, ps[..|ps| - 1], id);
    }
  }

  /** A confirmed request never leaves its train with fewer than zero seats. */
  lemma ConfirmedLeavesSeats(trains: map<string, Train>, ps: seq<Passenger>, i: nat)
    requires i < |ps| && Confirmations(trains, ps)[i]
    ensures ps[i].trainId in trains
    ensures 0 <= BookAll(trains, ps[..i + 1])[ps[i].trainId].availableSeats
  {
    var p, t := ps[i], BookAll(trains, ps[..i]);
    var ok := CheckSeatAvailability(t, p.trainId, p.tickets);
    var before, upTo := Confirmations(trains, ps[..i]), Confirmations(trains, ps[..i + 1]);
    ConfirmationsPrefix(trains, ps, i + 1);
    assert upTo[i] == Confirmations(trains, ps)[i];
    RequestStep(trains, ps, i);
    assert upTo == before + [ok] && |before| == i;
    assert ok;
  }

  /** Handling request `i` after the ones before it. */
  lemma RequestStep(trains: map<string, Train>, ps: seq<Passenger>, i: nat)
    requires i < |ps|
    ensures var p, t := ps[i], BookAll(trains, ps[..i]);
      var ok := CheckSeatAvailability(t, p.trainId, p.tickets);
      && Confirmations(trains, ps[..i + 1]) == Confirmations(trains, ps[..i]) + [ok]
      && BookAll(trains, ps[..i + 1]) == if ok then Book(t, p.trainId, p.tickets) else t
  {
    assert ps[..i + 1][..i] == ps[..i];
  }

  lemma {:induction false} ConfirmationsPrefix(trains: map<string, Train>, ps: seq<Passenger>, n: nat)
    requires n <= |ps|
    ensures Confirmations(trains, ps[..n]) == Confirmations(trains, ps)[..n]
  {
    if n < |ps| {
      var init := ps[..|ps| - 1];
      assert init[..n] == ps[..n];
      ConfirmationsPrefix(trains, init, n);
    } else {
      assert ps[..n] == ps;
    }
  }

  /**
    Requests are served in order: a request that would be confirmed on its
    own is refused once an earlier request has taken the seats.
   */
  lemma EarlierBookingWins()
    ensures var trains := map["T1" := Train("Express", "A", "B", 5, 5, 100)];
      var alice := Passenger("Alice", "T1", 4);
      var bob := Passenger("Bob", "T1", 2);
      && Confirmations(trains, [alice]) == [true]
      && Confirmations(trains, [bob, alice]) == [true, false]
  {
    var trains := map["T1" := Train("Express", "A", "B", 5, 5, 100)];
    var alice := Passenger("Alice", "T1", 4);
    var bob := Passenger("Bob", "T1", 2);
    assert [bob, alice][..1] == [bob];
    assert BookAll(trains, [bob])["T1"].availableSeats == 3;
  }

  /**
    A refusal that the initial seats would have allowed has a cause: an
    earlier confirmed request on the same train took some of its seats.
   */
  lemma RefusedAfterEarlierBooking(trains: map<string, Train>, ps: seq<Passenger>, i: nat)
    requires i < |ps| && ps[i].trainId in trains
    requires ps[i].tickets <= trains[ps[i].trainId].availableSeats
    requires !Confirmations(trains, ps)[i]
    ensures exists j :: 0 <= j < i && ps[j].trainId == ps[i].trainId && Confirmations(trains, ps)[j] && ps[j].tickets > 0
  {
    var id, before := ps[i].trainId, ps[..i];
    ConfirmationsPrefix(trains, ps, i + 1);
    RequestStep(trains, ps, i);
    assert Confirmations(trains, ps[..i + 1])[i] == Confirmations(trains, ps)[i];
    SeatAccounting(trains, before, id);
    ConfirmedSomewhere(trains, before, id);
    var j :| 0 <= j < i && before[j].trainId == id && Confirmations(trains, before)[j] && before[j].tickets > 0;
    ConfirmationsPrefix(trains, ps, i);
    assert Confirmations(trains, ps)[j] == Confirmations(trains, before)[j];
  }

  /** Positive confirmed tickets on a train come from a confirmed request on it with positive tickets. */
  lemma {:induction false} ConfirmedSomewhere(trains: map<string, Train>, ps: seq<Passenger>, id: string)
    requires ConfirmedTickets(trains, ps, id) > 0
    ensures exists j :: 0 <= j < |ps| && ps[j].trainId == id && Confirmations(trains, ps)[j] && ps[j].tickets > 0
  {
    var init, p := ps[..|ps| - 1], ps[|ps| - 1];
    var granted := p.trainId == id && CheckSeatAvailability(BookAll(trains, init), id, p.tickets);
    assert Confirmations(trains, ps) == Confirmations(trains, init) + [CheckSeatAvailability(BookAll(trains, init), p.trainId, p.tickets)];
    if !(granted && p.tickets > 0) {
      ConfirmedSomewhere(trains, init, id);
      var j :| 0 <= j < |init| && init[j].trainId == id && Confirmations(trains, init)[j] && init[j].tickets > 0;
      assert ps[j] == init[j] && Confirmations(trains, ps)[j] == Confirmations(trains, init)[j];
    } else {
      assert Confirmations(trains, ps)[|ps| - 1];
    }
  }

  // ---------------------------------------------------------------------------
  // Revenue

  /** Train IDs of the requests in `ps` that name a known train, in order. */
  function KnownIds(trains: map<string, Train>, ps: seq<Passenger>): (ids: seq<string>)
    ensures forall i :: 0 <= i < |ids| ==> ids[i] in trains
  {
    if ps == [] then []
    else
      var p := ps[|ps| - 1];
      KnownIds(trains, ps[..|ps| - 1]) + (if p.trainId in trains then [p.trainId] else [])
  }

  /** Sum of `tickets * fare` over the requests in `ps` naming the known train `id`. */
  function RevenueOf(trains: map<string, Train>, ps: seq<Passenger>, id: string): int
    requires id in trains
  {
    if ps == [] then 0
    else
      var p := ps[|ps| - 1];
      RevenueOf(trains, ps[..|ps| - 1], id) + (if p.trainId == id then p.tickets * trains[id].totalFare else 0)
  }

  /** Tickets requested on train `id`, whether the request was confirmed or not. */
  function RequestedTickets(ps: seq<Passenger>, id: string): int {
    if ps == [] then 0
    else
      var p := ps[|ps| - 1];
      RequestedTickets(ps[..|ps| - 1], id) + (if p.trainId == id then p.tickets else 0)
  }

  /** A train's revenue is its fare times every ticket requested on it, refused or not. */
  lemma {:induction false} RevenueIsFareTimesRequested(trains: map<string, Train>, ps: seq<Passenger>, id: string)
    requires id in trains
    ensures RevenueOf(trains, ps, id) == trains[id].totalFare * RequestedTickets(ps, id)
  {
    if ps != [] {
      RevenueIsFareTimesRequested(trains, ps[..|ps| - 1], id);
    }
  }

  /** A train is in `KnownIds` exactly when some request names it and it is known. */
  lemma {:induction false} KnownIdsNamed(trains: map<string, Train>, ps: seq<Passenger>, id: string)
    ensures id in KnownIds(trains, ps) <==> id in trains && exists i :: 0 <= i < |ps| && ps[i].trainId == id
  {
    if ps != [] {
      var init := ps[..|ps| - 1];
      KnownIdsNamed(trains, init, id);
      if id in trains && ps[|ps| - 1].trainId != id && exists i :: 0 <= i < |ps| && ps[i].trainId == id {
        var i :| 0 <= i < |ps| && ps[i].trainId == id;
        assert init[i].trainId == id;
      }
    }
  }

  /**
    Bookings leave the fares alone, so the report run after the booking loop
    finds the same revenue as one run before it.
   */
  lemma {:induction false} RevenueUnchangedByBooking(trains: map<string, Train>, booked: seq<Passenger>, ps: seq<Passenger>, id: string)
    requires id in trains
    ensures KnownIds(BookAll(trains, booked), ps) == KnownIds(trains, ps)
    ensures RevenueOf(BookAll(trains, booked), ps, id) == RevenueOf(trains, ps, id)
  {
    if ps != [] {
      RevenueUnchangedByBooking(trains, booked, ps[..|ps| - 1], id);
    }
  }

  // ---------------------------------------------------------------------------
  // Rows

  function RowOf(id: string, t: Train): Row {
    Row(id, t.name, t.source, t.destination, ShowInt(t.totalSeats), ShowInt(t.availableSeats), ShowInt(t.totalFare))
  }

  /** One row per train, in key order. */
  function Rows(order: seq<string>, trains: map<string, Train>): (rows: seq<Row>)
    requires forall i :: 0 <= i < |order| ==> order[i] in trains
    ensures |rows| == |order|
    ensures forall i :: 0 <= i < |rows| ==> rows[i] == RowOf(order[i], trains[order[i]])
  {
    seq(|order|, i requires 0 <= i < |order| => RowOf(order[i], trains[order[i]]))
  }

  /** The record `load_train_data` makes of a row; a count `int()` rejects is None. */
  function ReadRow(row: Row): (t: Option<Train>)
    ensures t.Some? <==> ParseInt(row.totalSeats).Some? && ParseInt(row.availableSeats).Some? && ParseInt(row.totalFare).Some?
    ensures t.Some? ==> t.value == Train(row.trainName, row.sourceStation, row.destinationStation,
      ParseInt(row.totalSeats).value, ParseInt(row.availableSeats).value, ParseInt(row.totalFare).value)
  {
    var total, available, fare := ParseInt(row.totalSeats), ParseInt(row.availableSeats), ParseInt(row.totalFare);
    if total.Some? && available.Some? && fare.Some? then
      Some(Train(row.trainName, row.sourceStation, row.destinationStation, total.value, available.value, fare.value))
    else None
  }

  lemma ReadRowOf(id: string, t: Train)
    ensures ReadRow(RowOf(id, t)) == Some(t)
  {
    IntRoundTrip(t.totalSeats);
    IntRoundTrip(t.availableSeats);
    IntRoundTrip(t.totalFare);
  }

  /**
    The key order and contents of the dict `load_train_data` builds from
    `rows`; a row whose ID was seen before replaces that train's record but
    keeps its place. None when some count is not an integer.
   */
  function LoadRows(rows: seq<Row>): (r: Option<(seq<string>, map<string, Train>)>)
    ensures r.Some? ==> Distinct(r.value.0) && forall id :: id in r.value.1 <==> id in r.value.0
  {
    if rows == [] then Some(([], map[]))
    else
      var row := rows[|rows| - 1];
      var prev := LoadRows(rows[..|rows| - 1]);
      var t := ReadRow(row);
      if prev.None? || t.None? then None
      else
        var (order, trains) := prev.value;
        Some((if row.trainId in trains then order else order + [row.trainId], trains[row.trainId := t.value]))
  }

  /** The train IDs of the rows, in file order. */
  function RowIds(rows: seq<Row>): (ids: seq<string>)
    ensures |ids| == |rows| && forall i :: 0 <= i < |rows| ==> ids[i] == rows[i].trainId
  {
    seq(|rows|, i requires 0 <= i < |rows| => rows[i].trainId)
  }

  lemma RowIdsSnoc(rows: seq<Row>, init: seq<Row>, last: Row)
    requires rows != [] && init == rows[..|rows| - 1] && last == rows[|rows| - 1]
    ensures RowIds(rows) == RowIds(init) + [last.trainId]
  {
  }

  /** No row after row `i` has row `i`'s ID. */
  predicate LastWithId(rows: seq<Row>, i: nat)
    requires i < |rows|
  {
    forall j :: i < j < |rows| ==> rows[j].trainId != rows[i].trainId
  }

  /**
    What a successful load holds: the keys are the rows' IDs in order of first
    appearance, and each train is the record read from the last row with its ID.
   */
  lemma LoadRowsContents(rows: seq<Row>, order: seq<string>, trains: map<string, Train>)
    requires LoadRows(rows) == Some((order, trains))
    ensures order == Dedup(RowIds(rows))
    ensures forall i :: 0 <= i < |rows| && LastWithId(rows, i) ==>
      rows[i].trainId in trains && ReadRow(rows[i]) == Some(trains[rows[i].trainId])
  {
    LoadRowsOrder(rows);
    LoadRowsRecords(rows);
  }

  /** The loaded key order is the rows' IDs in order of first appearance. */
  lemma {:induction false} LoadRowsOrder(rows: seq<Row>)
    requires LoadRows(rows).Some?
    ensures LoadRows(rows).value.0 == Dedup(RowIds(rows))
  {
    if rows != [] {
      var init, last := rows[..|rows| - 1], rows[|rows| - 1];
      LoadRowsSnoc(rows, init, last);
      LoadRowsOrder(init);
      RowIdsSnoc(rows, init, last);
      DedupSnoc(RowIds(init), last.trainId);
    }
  }

  /** Each loaded train is the record read from the last row with its ID. */
  lemma {:induction false} LoadRowsRecords(rows: seq<Row>)
    requires LoadRows(rows).Some?
    ensures var trains := LoadRows(rows).value.1;
      forall i :: 0 <= i < |rows| && LastWithId(rows, i) ==>
        rows[i].trainId in trains && ReadRow(rows[i]) == Some(trains[rows[i].trainId])
  {
    if rows != [] {
      var init, last := rows[..|rows| - 1], rows[|rows| - 1];
      LoadRowsSnoc(rows, init, last);
      LoadRowsRecords(init);
      LastRowsRead(rows, init, last, LoadRows(init).value.1, ReadRow(last).value);
    }
  }

  /** The records of a load, one row later: the new row's record replaces any under its ID. */
  lemma LastRowsRead(rows: seq<Row>, init: seq<Row>, last: Row, trains: map<string, Train>, t: Train)
    requires rows != [] && init == rows[..|rows| - 1] && last == rows[|rows| - 1] && ReadRow(last) == Some(t)
    requires forall i :: 0 <= i < |init| && LastWithId(init, i) ==>
      init[i].trainId in trains && ReadRow(init[i]) == Some(trains[init[i].trainId])
    ensures var trains' := trains[last.trainId := t];
      forall i :: 0 <= i < |rows| && LastWithId(rows, i) ==>
        rows[i].trainId in trains' && ReadRow(rows[i]) == Some(trains'[rows[i].trainId])
  {
    forall i | 0 <= i < |rows| - 1 && LastWithId(rows, i)
      ensures init[i].trainId != last.trainId && LastWithId(init, i)
    {
      assert rows[i] == init[i] && rows[|rows| - 1] == last;
      forall j | i < j < |init|
        ensures init[j].trainId != init[i].trainId
      {
        assert rows[j] == init[j];
      }
    }
  }

  /** Loading one more row: the earlier rows load, the row reads, and its record goes in under its ID. */
  lemma LoadRowsSnoc(rows: seq<Row>, init: seq<Row>, last: Row)
    requires LoadRows(rows).Some? && rows != [] && init == rows[..|rows| - 1] && last == rows[|rows| - 1]
    ensures LoadRows(init).Some? && ReadRow(last).Some?
    ensures var (order, trains) := LoadRows(init).value;
      LoadRows(rows).value == (if last.trainId in trains then order else order + [last.trainId], trains[last.trainId := ReadRow(last).value])
  {
  }

  lemma LoadRowsSnocFails(rows: seq<Row>)
    requires rows != []
    ensures LoadRows(rows).None? <==> LoadRows(rows[..|rows| - 1]).None? || ReadRow(rows[|rows| - 1]).None?
  {
  }

  /** Loading fails exactly when some row has a count `int()` rejects. */
  lemma {:induction false} LoadRowsFails(rows: seq<Row>)
    ensures LoadRows(rows).None? <==> exists i :: 0 <= i < |rows| && Unreadable(rows[i])
  {
    if rows != [] {
      var init, last := rows[..|rows| - 1], rows[|rows| - 1];
      assert |init| == |rows| - 1;
      LoadRowsFails(init);
      LoadRowsSnocFails(rows);
      UnreadableSnoc(rows, init);
    }
  }

  predicate Unreadable(row: Row) {
    ReadRow(row).None?
  }

  /** Some row is unreadable when some row before the last one is, or the last one is. */
  lemma UnreadableSnoc(rows: seq<Row>, init: seq<Row>)
    requires rows != [] && init == rows[..|rows| - 1]
    ensures (exists i :: 0 <= i < |rows| && Unreadable(rows[i]))
        <==> (exists i :: 0 <= i < |init| && Unreadable(init[i])) || Unreadable(rows[|rows| - 1])
  {
    if exists i :: 0 <= i < |rows| - 1 && Unreadable(init[i]) {
      var i :| 0 <= i < |rows| - 1 && Unreadable(init[i]);
      assert rows[i] == init[i];
    }
    if exists i :: 0 <= i < |rows| && Unreadable(rows[i]) {
      var i :| 0 <= i < |rows| && Unreadable(rows[i]);
      if i < |rows| - 1 {
        assert init[i] == rows[i];
      }
    }
  }

  /** A row for a new ID appends that ID to the key order. */
  lemma LoadRowsNewKey(rows: seq<Row>, order: seq<string>, trains: map<string, Train>, id: string, t: Train)
    requires LoadRows(rows) == Some((order, trains)) && id !in trains
    ensures LoadRows(rows + [RowOf(id, t)]) == Some((order + [id], trains[id := t]))
  {
    assert (rows + [RowOf(id, t)])[..|rows|] == rows;
    ReadRowOf(id, t);
  }

  /** Loading what was written from the first `k` keys gives back those keys and their trains. */
  lemma {:induction false} LoadRowsPrefix(order: seq<string>, trains: map<string, Train>, k: nat)
    requires Distinct(order) && forall id :: id in trains <==> id in order
    requires k <= |order|
    ensures var r := LoadRows(Rows(order[..k], trains));
      r.Some? && r.value.0 == order[..k] && Restricts(r.value.1, order[..k], trains)
  {
    if k > 0 {
      var id := order[k - 1];
      var front := Rows(order[..k - 1], trains);
      assert Rows(order[..k], trains) == front + [RowOf(id, trains[id])];
      LoadRowsPrefix(order, trains, k - 1);
      var m := LoadRows(front).value.1;
      assert id !in order[..k - 1];
      LoadRowsNewKey(front, order[..k - 1], m, id, trains[id]);
      assert order[..k - 1] + [id] == order[..k];
      RestrictsSnoc(m, order[..k - 1], trains, id);
    }
  }

  /** `m` is `trains` cut down to the keys in `keys`. */
  ghost predicate Restricts(m: map<string, Train>, keys: seq<string>, trains: map<string, Train>) {
    (forall id :: id in m <==> id in keys) && forall id :: id in m ==> id in trains && m[id] == trains[id]
  }

  lemma RestrictsSnoc(m: map<string, Train>, keys: seq<string>, trains: map<string, Train>, id: string)
    requires Restricts(m, keys, trains) && id in trains
    ensures Restricts(m[id := trains[id]], keys + [id], trains)
  {
  }

  /** Writing the table and loading the file back gives the same dict, in the same order. */
  lemma WriteThenLoad(order: seq<string>, trains: map<string, Train>)
    requires Distinct(order) && forall id :: id in trains <==> id in order
    ensures LoadRows(Rows(order, trains)) == Some((order, trains))
  {
    LoadRowsPrefix(order, trains, |order|);
    var r := LoadRows(Rows(order[..|order|], trains));
    assert order[..|order|] == order;
    RestrictsAll(r.value.1, order, trains);
  }

  /** Cut down to all of its own keys, a map is itself. */
  lemma RestrictsAll(m: map<string, Train>, keys: seq<string>, trains: map<string, Train>)
    requires Restricts(m, keys, trains) && forall id :: id in trains <==> id in keys
    ensures m == trains
  {
    assert m.Keys == trains.Keys;
  }

  /** `load_train_data` over already-read rows: the dict, or None where `int()` fails. */
  method LoadTrainData(rows: seq<Row>) returns (loaded: Option<(seq<string>, map<string, Train>)>)
    ensures loaded == LoadRows(rows)
  {
    var order: seq<string> := [];
    var trains: map<string, Train> := map[];
    for i := 0 to |rows|
      invariant LoadRows(rows[..i]) == Some((order, trains))
    {
      assert rows[..i + 1][..i] == rows[..i];
      var row := rows[i];
      var train := ReadRow(row);
      if train.None? {
        LoadRowsFails(rows);
        return None;
      }
      if row.trainId !in trains {
        order := order + [row.trainId];
      }
      trains := trains[row.trainId := train.value];
    }
    assert rows[..|rows|] == rows;
    return Some((order, trains));
  }

  // ---------------------------------------------------------------------------
  // The table, updated in place

  /** The `trains` dict of `main`: its keys in order and the record of each. */
  class TrainTable {
    var order: seq<string>
    var trains: map<string, Train>

    ghost predicate Valid()
      reads this
    {
      Distinct(order) && forall id :: id in trains <==> id in order
    }

    constructor (order0: seq<string>, trains0: map<string, Train>)
      requires Distinct(order0) && forall id :: id in trains0 <==> id in order0
      ensures Valid() && order == order0 && trains == trains0
    {
      order := order0;
      trains := trains0;
    }

    /** `update_seat_availability`: only the named train's available seats drop, by `n`. */
    method UpdateSeatAvailability(id: string, n: int)
      requires Valid()
      modifies this
      ensures Valid() && order == old(order)
      ensures trains == Book(old(trains), id, n)
    {
      if id in trains {
        var train := trains[id];
        trains := trains[id := train.(availableSeats := train.availableSeats - n)];
      }
    }

    /** The booking loop of `main`: each request in turn is checked and, if possible, booked. */
    method ProcessBookings(passengers: seq<Passenger>) returns (confirmed: seq<bool>)
      requires Valid()
      modifies this
      ensures Valid() && order == old(order)
      ensures trains == BookAll(old(trains), passengers)
      ensures confirmed == Confirmations(old(trains), passengers)
    {
      confirmed := [];
      for i := 0 to |passengers|
        invariant Valid() && order == old(order)
        invariant trains == BookAll(old(trains), passengers[..i])
        invariant confirmed == Confirmations(old(trains), passengers[..i])
      {
        assert passengers[..i + 1][..i] == passengers[..i];
        var p := passengers[i];
        if CheckSeatAvailability(trains, p.trainId, p.tickets) {
          UpdateSeatAvailability(p.trainId, p.tickets);
          confirmed := confirmed + [true];
        } else {
          confirmed := confirmed + [false];
        }
      }
      assert passengers[..|passengers|] == passengers;
    }

    /** `write_updated_train_data`: the rows written after the header, one per train in key order. */
    method WriteUpdatedTrainData() returns (rows: seq<Row>)
      requires Valid()
      ensures rows == Rows(order, trains)
    {
      rows := [];
      for i := 0 to |order|
        invariant rows == Rows(order[..i], trains)
      {
        rows := rows + [RowOf(order[i], trains[order[i]])];
      }
      assert order[..|order|] == order;
    }

    /**
      The revenue part of `generate_reports`: one entry per known train some
      request names, in order of first mention, holding the sum of
      `tickets * fare` over all such requests.
     */
    method RevenueReport(passengers: seq<Passenger>) returns (ids: seq<string>, revenue: map<string, int>)
      ensures ids == Dedup(KnownIds(trains, passengers))
      ensures forall id :: id in revenue <==> id in ids
      ensures forall id :: id in revenue ==> id in trains && revenue[id] == RevenueOf(trains, passengers, id)
    {
      ids, revenue := [], map[];
      for i := 0 to |passengers|
        invariant RevenueAs(trains, passengers[..i], ids, revenue)
      {
        var p := passengers[i];
        assert passengers[..i] + [p] == passengers[..i + 1];
        if p.trainId in trains {
          RevenueStepKnown(trains, passengers[..i], ids, revenue, p);
          var fare := trains[p.trainId].totalFare;
          if p.trainId in revenue {
            revenue := revenue[p.trainId := revenue[p.trainId] + p.tickets * fare];
          } else {
            ids := ids + [p.trainId];
            revenue := revenue[p.trainId := p.tickets * fare];
          }
        } else {
          RevenueStepUnknown(trains, passengers[..i], ids, revenue, p);
        }
      }
      assert passengers[..|passengers|] == passengers;
    }
  }

  /** `ids` and `revenue` are the key order and contents of the revenue dict after the requests `ps`. */
  ghost predicate RevenueAs(trains: map<string, Train>, ps: seq<Passenger>, ids: seq<string>, revenue: map<string, int>) {
    && ids == Dedup(KnownIds(trains, ps))
    && (forall id :: id in revenue <==> id in ids)
    && (forall id :: id in revenue ==> id in trains && revenue[id] == RevenueOf(trains, ps, id))
  }

  lemma RequestSnoc(trains: map<string, Train>, ps: seq<Passenger>, p: Passenger)
    ensures KnownIds(trains, ps + [p]) == KnownIds(trains, ps) + (if p.trainId in trains then [p.trainId] else [])
    ensures forall id :: id in trains ==>
      RevenueOf(trains, ps + [p], id)
      == RevenueOf(trains, ps, id) + (if p.trainId == id then p.tickets * trains[id].totalFare else 0)
  {
    assert (ps + [p])[..|ps|] == ps;
  }

  /** A request naming an unknown train changes nothing. */
  lemma RevenueStepUnknown(trains: map<string, Train>, ps: seq<Passenger>, ids: seq<string>, revenue: map<string, int>, p: Passenger)
    requires RevenueAs(trains, ps, ids, revenue) && p.trainId !in trains
    ensures RevenueAs(trains, ps + [p], ids, revenue)
  {
    RequestSnoc(trains, ps, p);
    assert KnownIds(trains, ps + [p]) == KnownIds(trains, ps);
  }

  /** A request naming a known train adds its `tickets * fare` to that train's entry, creating it if needed. */
  lemma RevenueStepKnown(trains: map<string, Train>, ps: seq<Passenger>, ids: seq<string>, revenue: map<string, int>, p: Passenger)
    requires RevenueAs(trains, ps, ids, revenue) && p.trainId in trains
    ensures var amount := p.tickets * trains[p.trainId].totalFare;
      RevenueAs(trains, ps + [p],
        if p.trainId in revenue then ids else ids + [p.trainId],
        revenue[p.trainId := if p.trainId in revenue then revenue[p.trainId] + amount else amount])
  {
    var id := p.trainId;
    var qs := ps + [p];
    RequestSnoc(trains, ps, p);
    DedupSnoc(KnownIds(trains, ps), id);
    var amount := p.tickets * trains[id].totalFare;
    var ids' := if id in revenue then ids else ids + [id];
    var revenue' := revenue[id := if id in revenue then revenue[id] + amount else amount];
    assert ids' == Dedup(KnownIds(trains, qs));
    if id !in revenue {
      RevenueAbsent(trains, ps, id);
    }
    forall x | x in revenue'
      ensures x in trains && revenue'[x] == RevenueOf(trains, qs, x)
    {
      if x != id {
        assert revenue'[x] == revenue[x];
      }
    }
    assert forall x :: x in revenue' <==> x in ids';
    assert RevenueAs(trains, qs, ids', revenue');
  }

  /** A train no request has named yet has earned nothing so far. */
  lemma {:induction false} RevenueAbsent(trains: map<string, Train>, ps: seq<Passenger>, id: string)
    requires id in trains && id !in Dedup(KnownIds(trains, ps))
    ensures RevenueOf(trains, ps, id) == 0
  {
    if ps != [] {
      var init := ps[..|ps| - 1];
      DedupHas(KnownIds(trains, ps), id);
      DedupHas(KnownIds(trains, init), id);
      KnownIdsNamed(trains, ps, id);
      KnownIdsNamed(trains, init, id);
      RevenueAbsent(trains, init, id);
    }
  }
}
