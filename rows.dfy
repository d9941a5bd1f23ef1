/**
 * The url_map table of app.py as a sequence of rows in table order, with the
 * two unique columns, the point lookups the request handlers make, the
 * active-row listing of /registered_short_urls and the scheme normalisation of
 * the redirect.
 */
module Rows {
  import opened Wrappers
  import opened Codec
  import Base62

  /** Timestamps are whole seconds since some epoch; outdate_after is created_at plus 30 days. */
  const THIRTY_DAYS: nat := 30 * 24 * 60 * 60

  /** The short code a freshly inserted row carries until it is finalised. */
  const PLACEHOLDER: string := "temp"

  /** One URLMap row. */
  datatype UrlMap = UrlMap(
    id: nat,
    originalUrl: string,
    shortCode: string,
    clicks: nat,
    createdAt: nat,
    outdateAfter: nat)

  /** The lazy-expiry test of shorten and stats: outdate_after < now. */
  predicate Expired(row: UrlMap, now: nat) {
    row.outdateAfter < now
  }

  predicate UniqueUrls(rows: seq<UrlMap>) {
    forall i, j :: 0 <= i < j < |rows| ==> rows[i].originalUrl != rows[j].originalUrl
  }

  predicate UniqueCodes(rows: seq<UrlMap>) {
    forall i, j :: 0 <= i < j < |rows| ==> rows[i].shortCode != rows[j].shortCode
  }

  /** Ids grow along the table, so table order is id order and ids are unique. */
  predicate IdsIncreasing(rows: seq<UrlMap>) {
    forall i, j :: 0 <= i < j < |rows| ==> rows[i].id < rows[j].id
  }

  /**
   * What each row satisfies between requests: it expires thirty days after its
   * creation, and its code is either the placeholder or the eight-character
   * prefix of the encoding of its own URL.
   */
  predicate RowOk(row: UrlMap, a: seq<char>)
    requires |a| == Base62.BASE
  {
    && row.outdateAfter == row.createdAt + THIRTY_DAYS
    && (row.shortCode == PLACEHOLDER || row.shortCode == ShortCode(row.originalUrl, a))
  }

  /** What the table satisfies between requests: both unique constraints hold, ids increase and every row is RowOk. */
  predicate WellFormed(rows: seq<UrlMap>, a: seq<char>)
    requires |a| == Base62.BASE
  {
    && UniqueUrls(rows)
    && UniqueCodes(rows)
    && IdsIncreasing(rows)
    && forall i :: 0 <= i < |rows| ==> RowOk(rows[i], a)
  }

  /**
   * Every row of a well-formed table has a code of one to eight characters
   * and is live from its creation until some later instant.
   */
  lemma WellFormedRowBounds(rows: seq<UrlMap>, a: seq<char>, i: nat)
    requires |a| == Base62.BASE && WellFormed(rows, a) && i < |rows|
    ensures 1 <= |rows[i].shortCode| <= CODE_LENGTH
    ensures rows[i].createdAt < rows[i].outdateAfter
  {
    assert RowOk(rows[i], a);
  }

  /** URLMap.query.filter_by(original_url=url).first(): the first row holding url. */
  function FindByUrl(rows: seq<UrlMap>, url: string): (r: Option<nat>)
    ensures r.Some? ==> r.value < |rows| && rows[r.value].originalUrl == url
    ensures r.Some? ==> forall j :: 0 <= j < r.value ==> rows[j].originalUrl != url
    ensures r.None? <==> forall j :: 0 <= j < |rows| ==> rows[j].originalUrl != url
  {
    if rows == [] then None
    else if rows[0].originalUrl == url then Some(0)
    else
      match FindByUrl(rows[1..], url)
      case None => None
      case Some(k) => Some(k + 1)
  }

  /** URLMap.query.filter_by(short_code=code).first(): the first row holding code. */
  function FindByCode(rows: seq<UrlMap>, code: string): (r: Option<nat>)
    ensures r.Some? ==> r.value < |rows| && rows[r.value].shortCode == code
    ensures r.Some? ==> forall j :: 0 <= j < r.value ==> rows[j].shortCode != code
    ensures r.None? <==> forall j :: 0 <= j < |rows| ==> rows[j].shortCode != code
  {
    if rows == [] then None
    else if rows[0].shortCode == code then Some(0)
    else
      match FindByCode(rows[1..], code)
      case None => None
      case Some(k) => Some(k + 1)
  }

  /** Under the unique constraint a row found by its code is the only row with that code. */
  lemma FindByCodeUnique(rows: seq<UrlMap>, code: string, j: nat)
    requires UniqueCodes(rows)
    requires j < |rows| && rows[j].shortCode == code
    ensures FindByCode(rows, code) == Some(j)
  {
  }

  /**
   * The id SQLite gives the next row of a rowid table: one more than the
   * largest id in use, and 1 in an empty table.
   */
  function NextId(rows: seq<UrlMap>): (id: nat)
    ensures forall i :: 0 <= i < |rows| ==> rows[i].id < id
    ensures rows == [] ==> id == 1
    ensures rows != [] ==> exists i :: 0 <= i < |rows| && id == rows[i].id + 1
  {
    if rows == [] then 1
    else
      var rest := NextId(rows[1..]);
      assert forall i :: 1 <= i < |rows| ==> rows[i] == rows[1..][i - 1];
      if rows[0].id + 1 < rest then
        var k :| 0 <= k < |rows[1..]| && rest == rows[1..][k].id + 1;
        assert rest == rows[k + 1].id + 1;
        rest
      else rows[0].id + 1
  }

  /** With ids increasing along the table, the next id is the last row's id plus one. */
  lemma {:induction false} NextIdIsLastPlusOne(rows: seq<UrlMap>)
    requires IdsIncreasing(rows)
    ensures rows != [] ==> NextId(rows) == rows[|rows| - 1].id + 1
  {
    if |rows| > 1 {
      NextIdIsLastPlusOne(rows[1..]);
      assert rows[1..][|rows| - 2] == rows[|rows| - 1];
    }
  }

  /**
   * Deleting the last row lowers the next id: the next row created gets an id
   * no larger than the deleted one (1, when the table is then empty), and
   * in a table of two or more rows exactly the deleted id when the row before
   * it holds the id just below.
   */
  lemma NextIdAfterDeletingLast(rows: seq<UrlMap>)
    requires IdsIncreasing(rows) && rows != []
    ensures |rows| == 1 ==> NextId(RemoveAt(rows, 0)) == 1
    ensures |rows| > 1 ==> NextId(RemoveAt(rows, |rows| - 1)) <= rows[|rows| - 1].id
    ensures |rows| > 1 ==>
      (NextId(RemoveAt(rows, |rows| - 1)) == rows[|rows| - 1].id <==> rows[|rows| - 2].id + 1 == rows[|rows| - 1].id)
  {
    var rest := RemoveAt(rows, |rows| - 1);
    assert IdsIncreasing(rest);
    NextIdIsLastPlusOne(rest);
    if |rows| > 1 {
      assert rest[|rest| - 1] == rows[|rows| - 2];
    }
  }

  /** The table after db.session.delete of row i. */
  function RemoveAt(rows: seq<UrlMap>, i: nat): (r: seq<UrlMap>)
    requires i < |rows|
    ensures |r| == |rows| - 1
    ensures forall j :: 0 <= j < i ==> r[j] == rows[j]
    ensures forall j :: i <= j < |r| ==> r[j] == rows[j + 1]
  {
    rows[..i] + rows[i + 1..]
  }

  lemma WellFormedRemoveAt(rows: seq<UrlMap>, i: nat, a: seq<char>)
    requires |a| == Base62.BASE && WellFormed(rows, a) && i < |rows|
    ensures WellFormed(RemoveAt(rows, i), a)
  {
  }

  /** The table after entry.clicks += 1 on row i: that row has one more click and nothing else changes. */
  function CountClick(rows: seq<UrlMap>, i: nat): (r: seq<UrlMap>)
    requires i < |rows|
    ensures |r| == |rows|
    ensures r[i] == rows[i].(clicks := rows[i].clicks + 1)
    ensures forall j :: 0 <= j < |rows| && j != i ==> r[j] == rows[j]
  {
    rows[i := rows[i].(clicks := rows[i].clicks + 1)]
  }

  /** Counting a click touches neither unique column, the id nor the timestamps. */
  lemma WellFormedCountClick(rows: seq<UrlMap>, i: nat, a: seq<char>)
    requires |a| == Base62.BASE && WellFormed(rows, a) && i < |rows|
    ensures WellFormed(CountClick(rows, i), a)
  {
  }

  /**
   * Appending a row keeps the table invariant when neither of its unique
   * columns is held yet, it takes the next id and it is RowOk itself.
   */
  lemma WellFormedAppend(rows: seq<UrlMap>, row: UrlMap, a: seq<char>)
    requires |a| == Base62.BASE && WellFormed(rows, a)
    requires FindByUrl(rows, row.originalUrl).None? && FindByCode(rows, row.shortCode).None?
    requires row.id == NextId(rows) && RowOk(row, a)
    ensures WellFormed(rows + [row], a)
  {
    var t := rows + [row];
    assert forall k :: 0 <= k < |rows| ==> t[k] == rows[k];
    assert t[|rows|] == row;
    assert UniqueUrls(t);
    assert UniqueCodes(t);
    assert IdsIncreasing(t);
    assert forall k :: 0 <= k < |t| ==> RowOk(t[k], a);
  }

  /**
   * Setting row i's code to the prefix of its own URL's encoding keeps the
   * table invariant when no other row holds that code.
   */
  lemma WellFormedSetCode(rows: seq<UrlMap>, i: nat, code: string, a: seq<char>)
    requires |a| == Base62.BASE && WellFormed(rows, a) && i < |rows|
    requires code == ShortCode(rows[i].originalUrl, a)
    requires forall j :: 0 <= j < |rows| && j != i ==> rows[j].shortCode != code
    ensures WellFormed(rows[i := rows[i].(shortCode := code)], a)
  {
  }

  // ---------------------------------------------------------------------
  // /registered_short_urls

  /**
   * The rows listed as registered: those with outdate_after >= now, in table
   * order. Every field of URLMap is projected, so a row stands for its summary.
   */
  function ListActive(rows: seq<UrlMap>, now: nat): (r: seq<UrlMap>)
    ensures |r| <= |rows|
    ensures forall x :: x in r <==> x in rows && x.outdateAfter >= now
  {
    if rows == [] then []
    else (if rows[0].outdateAfter >= now then [rows[0]] else []) + ListActive(rows[1..], now)
  }

  /** Listing distributes over concatenation, so it keeps the order of the table. */
  lemma {:induction false} ListActiveAppend(xs: seq<UrlMap>, ys: seq<UrlMap>, now: nat)
    ensures ListActive(xs + ys, now) == ListActive(xs, now) + ListActive(ys, now)
  {
    if xs == [] {
      assert xs + ys == ys;
    } else {
      assert (xs + ys)[0] == xs[0] && (xs + ys)[1..] == xs[1..] + ys;
      ListActiveAppend(xs[1..], ys, now);
    }
  }

  /** A row is listed exactly when the expiry test of shorten and stats says it is not expired. */
  lemma ListedIffNotExpired(rows: seq<UrlMap>, now: nat, x: UrlMap)
    requires x in rows
    ensures x in ListActive(rows, now) <==> !Expired(x, now)
  {
  }

  /** In a well-formed table a row is listed until exactly thirty days after its creation, whether or not it was ever read. */
  lemma ListedForThirtyDays(rows: seq<UrlMap>, a: seq<char>, i: nat, now: nat)
    requires |a| == Base62.BASE && WellFormed(rows, a) && i < |rows|
    ensures rows[i] in ListActive(rows, now) <==> now <= rows[i].createdAt + THIRTY_DAYS
  {
  }

  /** Listing leaves ids increasing when they were. */
  lemma {:induction false} ListActiveIdsIncreasing(rows: seq<UrlMap>, now: nat)
    requires IdsIncreasing(rows)
    ensures IdsIncreasing(ListActive(rows, now))
  {
    if rows != [] {
      ListActiveIdsIncreasing(rows[1..], now);
      var rest := ListActive(rows[1..], now);
      forall x | x in rest ensures rows[0].id < x.id {
        var k :| 0 <= k < |rows[1..]| && rows[1..][k] == x;
        assert rows[k + 1] == x;
      }
    }
  }

  // ---------------------------------------------------------------------
  // The redirect target

  predicate StartsWith(s: string, prefix: string) {
    |prefix| <= |s| && s[..|prefix|] == prefix
  }

  /** The redirect target: "http://" is put in front unless the URL already starts with http:// or https://. */
  function Normalize(url: string): (target: string)
    ensures StartsWith(target, "http://") || StartsWith(target, "https://")
    ensures |target| >= |url| && target[|target| - |url|..] == url
    ensures (StartsWith(url, "http://") || StartsWith(url, "https://")) <==> target == url
    ensures !(StartsWith(url, "http://") || StartsWith(url, "https://")) ==> target == "http://" + url
  {
    if StartsWith(url, "http://") || StartsWith(url, "https://") then url
    else
      var t := "http://" + url;
      assert t[..7] == "http://";
      t
  }

  /** Normalising twice is normalising once. */
  lemma NormalizeIdempotent(url: string)
    ensures Normalize(Normalize(url)) == Normalize(url)
  {
  }
}
