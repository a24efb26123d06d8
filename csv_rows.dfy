/**
 * The rows of the fortification CSV file: the row `process_fortification`
 * writes, and the in-memory part of `remove_duplicates`, which keeps the first
 * row for each Wikipedia URL.
 */
module CsvRows {
  import opened Wrappers
  import opened MapsLink

  /** A CSV record as `csv.reader` yields it. */
  type Row = seq<string>

  /** Column of the Wikipedia URL (the last of the five the script writes). */
  const UrlColumn := 4

  /** The header `main` writes before any data row. */
  const Header: Row := ["Castle Name", "Latitude", "Longitude", "Google Maps Link", "Wikipedia Link"]

  /** `row[4]` exists. */
  predicate Wide(row: Row) {
    |row| > UrlColumn
  }

  predicate AllWide(rows: seq<Row>) {
    forall k | 0 <= k < |rows| :: Wide(rows[k])
  }

  function Url(row: Row): string
    requires Wide(row)
  {
    row[UrlColumn]
  }

  /** The URLs of a sequence of rows, collected as the loop adds them to `seen_urls`. */
  function Urls(rows: seq<Row>): (s: set<string>)
    requires AllWide(rows)
    ensures |s| <= |rows|
  {
    if rows == [] then {}
    else Urls(rows[..|rows| - 1]) + {Url(rows[|rows| - 1])}
  }

  /** A URL is collected exactly when some row carries it. */
  lemma UrlsMembers(rows: seq<Row>)
    requires AllWide(rows)
    ensures forall u :: u in Urls(rows) <==> exists k | 0 <= k < |rows| :: Url(rows[k]) == u
  {
    UrlsHas(rows);
    forall u | u in Urls(rows) ensures exists k | 0 <= k < |rows| :: Url(rows[k]) == u {
      var k := UrlsWitness(rows, u);
    }
  }

  /** Every row's URL is collected. */
  lemma {:induction false} UrlsHas(rows: seq<Row>)
    requires AllWide(rows)
    ensures forall k | 0 <= k < |rows| :: Url(rows[k]) in Urls(rows)
  {
    if rows != [] {
      var init := rows[..|rows| - 1];
      UrlsHas(init);
      assert forall k | 0 <= k < |init| :: init[k] == rows[k];
    }
  }

  /** Only the rows' URLs are collected: a row that carries a collected URL. */
  lemma {:induction false} UrlsWitness(rows: seq<Row>, u: string) returns (k: nat)
    requires AllWide(rows) && u in Urls(rows)
    ensures k < |rows| && Url(rows[k]) == u
  {
    var init := rows[..|rows| - 1];
    if u == Url(rows[|rows| - 1]) {
      k := |rows| - 1;
    } else {
      k := UrlsWitness(init, u);
      assert init[k] == rows[k];
    }
  }

  /** A URL no row carries is not collected. */
  lemma {:induction false} UrlsOnly(rows: seq<Row>, u: string)
    requires AllWide(rows)
    requires forall k | 0 <= k < |rows| :: Url(rows[k]) != u
    ensures u !in Urls(rows)
  {
    if rows != [] {
      var init := rows[..|rows| - 1];
      assert forall k | 0 <= k < |init| :: init[k] == rows[k];
      UrlsOnly(init, u);
    }
  }

  /**
   * The row `process_fortification` writes: only when both coordinates are
   * present, with the proper name, the coordinates, their map link and the
   * Wikipedia URL.
   */
  function FortificationRow(properName: string, lat: Option<string>, lon: Option<string>, wikiUrl: string)
    : (r: Option<Row>)
    ensures r.Some? <==> Truthy(lat) && Truthy(lon)
    ensures r.Some? ==>
      |r.value| == 5 && Wide(r.value) && Url(r.value) == wikiUrl && r.value[..3] == [properName, lat.value, lon.value]
    ensures r.Some? && ',' !in lat.value ==> ParseMapsLink(r.value[3]) == Some((lat.value, lon.value))
  {
    if Truthy(lat) && Truthy(lon) then
      var link := GoogleMapsLink(lat, lon);
      assert ',' !in lat.value ==> ParseMapsLink(link) == Some((lat.value, lon.value)) by {
        if ',' !in lat.value {
          MapsLinkRoundTrip(lat.value, lon.value);
        }
      }
      Some([properName, lat.value, lon.value, link, wikiUrl])
    else None
  }

  /**
   * The rows `remove_duplicates` keeps, in order: a row stays when no earlier
   * row has its URL. Built from the back, as the loop appends.
   */
  function KeepFirst(rows: seq<Row>): (kept: seq<Row>)
    requires AllWide(rows)
    ensures AllWide(kept) && |kept| <= |rows|
  {
    if rows == [] then []
    else
      var init := rows[..|rows| - 1];
      var last := rows[|rows| - 1];
      if Url(last) in Urls(init) then KeepFirst(init) else KeepFirst(init) + [last]
  }

  /** No two rows carry the same URL. */
  predicate DistinctUrls(rows: seq<Row>)
    requires AllWide(rows)
  {
    forall a, b | 0 <= a < b < |rows| :: Url(rows[a]) != Url(rows[b])
  }

  /** Row `i` is the first with its URL. */
  predicate IsFirst(rows: seq<Row>, i: int)
    requires AllWide(rows)
  {
    0 <= i < |rows| && forall j | 0 <= j < i :: Url(rows[j]) != Url(rows[i])
  }

  /** The indices of the rows `KeepFirst` keeps, in the same order. */
  ghost function FirstIndices(rows: seq<Row>): seq<int>
    requires AllWide(rows)
  {
    if rows == [] then []
    else
      var init := rows[..|rows| - 1];
      if Url(rows[|rows| - 1]) in Urls(init) then FirstIndices(init)
      else FirstIndices(init) + [|rows| - 1]
  }

  /** The kept rows are the input rows at strictly increasing indices: a subsequence, in input order. */
  lemma {:induction false} KeepFirstIsSubsequence(rows: seq<Row>)
    requires AllWide(rows)
    ensures var kept, idx := KeepFirst(rows), FirstIndices(rows);
      && |idx| == |kept|
      && (forall k | 0 <= k < |idx| :: 0 <= idx[k] < |rows| && kept[k] == rows[idx[k]])
      && (forall a, b | 0 <= a < b < |idx| :: idx[a] < idx[b])
  {
    if rows != [] {
      var init := rows[..|rows| - 1];
      KeepFirstIsSubsequence(init);
    }
  }

  /** The kept indices are exactly the first occurrences of each URL. */
  lemma {:induction false} FirstIndicesAreFirsts(rows: seq<Row>)
    requires AllWide(rows)
    ensures forall i :: i in FirstIndices(rows) <==> IsFirst(rows, i)
  {
    if rows != [] {
      var n := |rows| - 1;
      var init := rows[..n];
      FirstIndicesAreFirsts(init);
      assert forall j | 0 <= j < n :: init[j] == rows[j];
      if Url(rows[n]) in Urls(init) {
        var j := UrlsWitness(init, Url(rows[n]));
        assert !IsFirst(rows, n);
      } else {
        UrlsHas(init);
        assert IsFirst(rows, n);
      }
      forall i ensures i in FirstIndices(rows) <==> IsFirst(rows, i) {
        if i < n {
          assert IsFirst(rows, i) <==> IsFirst(init, i);
        }
      }
    }
  }

  /** No URL is kept twice. */
  lemma {:induction false} KeepFirstUrlsDistinct(rows: seq<Row>)
    requires AllWide(rows)
    ensures DistinctUrls(KeepFirst(rows))
  {
    if rows != [] {
      var init := rows[..|rows| - 1];
      var last := rows[|rows| - 1];
      KeepFirstUrlsDistinct(init);
      if Url(last) !in Urls(init) {
        var kept := KeepFirst(init);
        KeepFirstUrls(init);
        UrlsHas(kept);
        var all := kept + [last];
        assert KeepFirst(rows) == all;
        forall a, b | 0 <= a < b < |all| ensures Url(all[a]) != Url(all[b]) {
          assert all[a] == kept[a];
          if b < |kept| {
            assert all[b] == kept[b];
          }
        }
      }
    }
  }

  /** No URL is lost: the kept rows carry exactly the URLs of the input. */
  lemma {:induction false} KeepFirstUrls(rows: seq<Row>)
    requires AllWide(rows)
    ensures Urls(KeepFirst(rows)) == Urls(rows)
  {
    if rows != [] {
      var init := rows[..|rows| - 1];
      var last := rows[|rows| - 1];
      KeepFirstUrls(init);
      if Url(last) !in Urls(init) {
        UrlsAppend(KeepFirst(init), last);
      }
    }
  }

  lemma UrlsAppend(rows: seq<Row>, row: Row)
    requires AllWide(rows) && Wide(row)
    ensures AllWide(rows + [row]) && Urls(rows + [row]) == Urls(rows) + {Url(row)}
  {
    assert (rows + [row])[..|rows|] == rows;
  }

  /** One step of the loop: the new row is kept exactly when its URL is new. */
  lemma KeepFirstStep(prefix: seq<Row>, row: Row)
    requires AllWide(prefix) && Wide(row)
    ensures AllWide(prefix + [row])
    ensures Urls(prefix + [row]) == Urls(prefix) + {Url(row)}
    ensures KeepFirst(prefix + [row])
      == if Url(row) in Urls(prefix) then KeepFirst(prefix) else KeepFirst(prefix) + [row]
  {
    UrlsAppend(prefix, row);
    assert (prefix + [row])[..|prefix|] == prefix;
  }

  /** When no URL repeats, nothing is dropped. */
  lemma {:induction false} KeepFirstOfDistinct(rows: seq<Row>)
    requires AllWide(rows) && DistinctUrls(rows)
    ensures KeepFirst(rows) == rows
  {
    if rows != [] {
      var n := |rows| - 1;
      var init, last := rows[..n], rows[n];
      DistinctInit(rows);
      KeepFirstOfDistinct(init);
      UrlsOnly(init, Url(last));
      KeepFirstStep(init, last);
      assert rows == init + [last];
    }
  }

  /** Dropping the last row keeps the URLs distinct, and none of them is the last row's. */
  lemma DistinctInit(rows: seq<Row>)
    requires AllWide(rows) && DistinctUrls(rows) && rows != []
    ensures var init := rows[..|rows| - 1];
      && AllWide(init) && DistinctUrls(init)
      && forall k | 0 <= k < |init| :: Url(init[k]) != Url(rows[|rows| - 1])
  {
    var init := rows[..|rows| - 1];
    assert forall k | 0 <= k < |init| :: init[k] == rows[k];
  }

  /** Removing duplicates a second time changes nothing. */
  lemma KeepFirstIdempotent(rows: seq<Row>)
    requires AllWide(rows)
    ensures KeepFirst(KeepFirst(rows)) == KeepFirst(rows)
  {
    KeepFirstUrlsDistinct(rows);
    KeepFirstOfDistinct(KeepFirst(rows));
  }

  /**
   * Why `remove_duplicates` stops without writing: `next(reader)` finds no
   * header, or `row[4]` fails on the data row with this index.
   */
  datatype DedupError = MissingHeader | ShortRow(index: nat)

  /** The index of the first row with no `row[4]`, if any. */
  function FirstShort(rows: seq<Row>): (k: Option<nat>)
    ensures k.None? <==> AllWide(rows)
    ensures k.Some? ==> k.value < |rows| && !Wide(rows[k.value]) && AllWide(rows[..k.value])
  {
    if rows == [] then None
    else if !Wide(rows[0]) then Some(0)
    else match FirstShort(rows[1..])
      case None => None
      case Some(k) =>
        assert rows[1..][..k] == rows[1..k + 1];
        Some(k + 1)
  }

  /**
   * What `remove_duplicates` writes back: the header, then the first row for
   * each Wikipedia URL, in input order; or why it stops.
   */
  function Dedup(table: seq<Row>): (r: Result<seq<Row>, DedupError>)
    ensures r.Success? ==> table != [] && |r.value| >= 1 && r.value[0] == table[0]
  {
    if table == [] then Failure(MissingHeader)
    else match FirstShort(table[1..])
      case Some(k) => Failure(ShortRow(k))
      case None => Success([table[0]] + KeepFirst(table[1..]))
  }

  /** The three outcomes of `Dedup`, each with its condition. */
  lemma DedupOutcomes(table: seq<Row>)
    ensures Dedup(table) == Failure(MissingHeader) <==> table == []
    ensures Dedup(table).Success? <==> table != [] && AllWide(table[1..])
    ensures Dedup(table).Success? ==> Dedup(table).value[1..] == KeepFirst(table[1..])
    ensures Dedup(table).Failure? && Dedup(table).error.ShortRow? ==>
      var k := Dedup(table).error.index;
      table != [] && k < |table| - 1 && !Wide(table[1 + k]) && AllWide(table[1..1 + k])
  {
    if table != [] && FirstShort(table[1..]).Some? {
      var k := FirstShort(table[1..]).value;
      assert table[1..][..k] == table[1..1 + k];
    }
  }

  /**
   * `remove_duplicates` on the rows `csv.reader` yields: `next(reader)` takes
   * the header, the loop takes the rest.
   */
  method RemoveDuplicates(table: seq<Row>) returns (r: Result<seq<Row>, DedupError>)
    ensures r == Dedup(table)
  {
    if table == [] {
      return Failure(MissingHeader);
    }
    var header := table[0];
    var uniqueRows := KeepFirstRows(table[1..]);
    match uniqueRows
    case Failure(k) =>
      return Failure(ShortRow(k));
    case Success(rows) =>
      return Success([header] + rows);
  }

  /**
   * The loop of `remove_duplicates`: a row is kept when its URL is not yet in
   * the set of URLs seen; `row[4]` on a shorter row stops it.
   */
  method KeepFirstRows(data: seq<Row>) returns (r: Result<seq<Row>, nat>)
    ensures r.Success? <==> AllWide(data)
    ensures r.Success? ==> r.value == KeepFirst(data)
    ensures r.Failure? ==> FirstShort(data) == Some(r.error)
  {
    var seenUrls: set<string> := {};
    var uniqueRows: seq<Row> := [];
    ghost var done: seq<Row> := [];
    var i := 0;
    while i < |data|
      invariant 0 <= i <= |data| && done == data[..i]
      invariant AllWide(done)
      invariant seenUrls == Urls(done)
      invariant uniqueRows == KeepFirst(done)
    {
      var row := data[i];
      if |row| <= UrlColumn {
        ShortAt(data, i);
        return Failure(i);
      }
      var wikiUrl := row[UrlColumn];
      assert data[..i + 1] == done + [row];
      KeepFirstStep(done, row);
      if wikiUrl !in seenUrls {
        seenUrls := seenUrls + {wikiUrl};
        uniqueRows := uniqueRows + [row];
      }
      done := done + [row];
      i := i + 1;
    }
    assert done == data;
    return Success(uniqueRows);
  }

  /** A short row after only wide ones is the first short row. */
  lemma ShortAt(rows: seq<Row>, i: nat)
    requires i < |rows| && !Wide(rows[i]) && AllWide(rows[..i])
    ensures FirstShort(rows) == Some(i)
  {
  }
}
