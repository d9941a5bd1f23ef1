/**
 * The request handlers of app.py that change the url_map table: shorten_url
 * (create-or-fetch, with lazy expiry and the two-phase placeholder creation),
 * redirect_url (click counting) and stats (lazy expiry). Each commit is a
 * reassignment of the rows field; the clock is the parameter now.
 */
module Store {
  import opened Wrappers
  import opened Base62
  import opened Codec
  import opened Rows

  /** How a request fails: an abort with an HTTP status and description, or a unique-constraint violation at commit (HTTP 500). */
  datatype Failure = Abort(status: nat, description: string) | IntegrityError

  const URL_MISSING: Failure := Abort(404, "URL missing")
  const URL_EXPIRED: Failure := Abort(410, "URL expired")
  const URL_NOT_FOUND: Failure := Abort(404, "URL NotFound")
  const SHORT_URL_NOT_FOUND: Failure := Abort(404, "Short URL not found")

  /** The body of a successful /stats response. */
  datatype Stats = Stats(originalUrl: string, shortCode: string, clicks: nat, createdAt: nat)

  /** Overwriting the last element of b + [p] with q gives b + [q]. */
  lemma ReplaceLast(b: seq<UrlMap>, p: UrlMap, q: UrlMap)
    ensures (b + [p])[|b| := q] == b + [q]
  {
  }

  class UrlStore {
    /** The url_map table, in table order. */
    var rows: seq<UrlMap>
    /** The 62 characters base62 writes digits with. */
    const alphabet: seq<char>

    ghost predicate Valid()
      reads this
    {
      IsAlphabet(alphabet) && WellFormed(rows, alphabet)
    }

    /** The freshly created, empty table (db.create_all). */
    constructor (alphabet: seq<char>)
      requires IsAlphabet(alphabet)
      ensures Valid() && rows == [] && this.alphabet == alphabet
    {
      this.alphabet := alphabet;
      rows := [];
    }

    /**
     * First phase of creation: add a row with code "temp" and commit. The
     * commit fails when either unique column would be duplicated.
     */
    method InsertPlaceholder(url: string, now: nat) returns (ok: bool)
      requires Valid()
      modifies this
      ensures Valid()
      ensures ok <==> FindByUrl(old(rows), url).None? && FindByCode(old(rows), PLACEHOLDER).None?
      ensures ok ==> rows == old(rows) + [UrlMap(NextId(old(rows)), url, PLACEHOLDER, 0, now, now + THIRTY_DAYS)]
      ensures !ok ==> rows == old(rows)
    {
      ok := FindByUrl(rows, url).None? && FindByCode(rows, PLACEHOLDER).None?;
      if ok {
        WellFormedAppend(rows, UrlMap(NextId(rows), url, PLACEHOLDER, 0, now, now + THIRTY_DAYS), alphabet);
        rows := rows + [UrlMap(NextId(rows), url, PLACEHOLDER, 0, now, now + THIRTY_DAYS)];
      }
    }

    /**
     * Second phase of creation: overwrite the code of row i and commit. The
     * commit fails, leaving the table as it was, when another row already
     * holds the code.
     */
    method FinalizeCode(i: nat, code: string) returns (ok: bool)
      requires Valid() && i < |rows|
      requires code == ShortCode(rows[i].originalUrl, alphabet)
      modifies this
      ensures Valid()
      ensures ok <==> forall j :: 0 <= j < |old(rows)| && j != i ==> old(rows)[j].shortCode != code
      ensures ok ==> rows == old(rows)[i := old(rows)[i].(shortCode := code)]
      ensures !ok ==> rows == old(rows)
    {
      ok := !exists j :: 0 <= j < |rows| && j != i && rows[j].shortCode == code;
      if ok {
        WellFormedSetCode(rows, i, code, alphabet);
        rows := rows[i := rows[i].(shortCode := code)];
      }
    }

    /**
     * The creation branch of POST /shorten for a URL not in the table: insert
     * and commit a placeholder row, then set its code to the eight-character
     * prefix of the URL's encoding and commit again. The second commit fails
     * when another row already holds that prefix, and the placeholder row then
     * stays in the table; it is never deleted and the other row is never
     * overwritten.
     */
    method Create(url: string, now: nat) returns (r: Result<string, Failure>)
      requires Valid()
      requires FindByUrl(rows, url).None?
      modifies this
      ensures Valid()
      ensures FindByCode(old(rows), PLACEHOLDER).Some? ==> r == Err(IntegrityError) && rows == old(rows)
      ensures FindByCode(old(rows), PLACEHOLDER).None? ==>
        var code := ShortCode(url, alphabet);
        var placeholder := UrlMap(NextId(old(rows)), url, PLACEHOLDER, 0, now, now + THIRTY_DAYS);
        if FindByCode(old(rows), code).Some? then
          r == Err(IntegrityError) && rows == old(rows) + [placeholder]
        else
          r == Ok(code) && rows == old(rows) + [placeholder.(shortCode := code)]
    {
      ghost var before := rows;
      ghost var placeholder := UrlMap(NextId(before), url, PLACEHOLDER, 0, now, now + THIRTY_DAYS);
      var inserted := InsertPlaceholder(url, now);
      if !inserted {
        return Err(IntegrityError);
      }
      assert rows == before + [placeholder];
      var last := |rows| - 1;
      var code := ShortCode(url, alphabet);
      assert forall j :: 0 <= j < last ==> rows[j] == before[j];
      ghost var free := FindByCode(before, code).None?;
      assert free <==> forall j :: 0 <= j < |rows| && j != last ==> rows[j].shortCode != code;
      var finalized := FinalizeCode(last, code);
      if !finalized {
        return Err(IntegrityError);
      }
      ReplaceLast(before, placeholder, placeholder.(shortCode := code));
      return Ok(code);
    }

    /**
     * POST /shorten. A missing or empty URL is rejected. A stored URL gives
     * back its code, unless it has expired, in which case its row is deleted
     * and the request fails with 410. A new URL goes through Create.
     */
    method Shorten(url: Option<string>, now: nat) returns (r: Result<string, Failure>)
      requires Valid()
      modifies this
      ensures Valid()
      ensures url.None? || url.value == [] ==> r == Err(URL_MISSING) && rows == old(rows)
      ensures url.Some? && url.value != [] && FindByUrl(old(rows), url.value).Some? ==>
        var i := FindByUrl(old(rows), url.value).value;
        if Expired(old(rows)[i], now) then r == Err(URL_EXPIRED) && rows == RemoveAt(old(rows), i)
        else r == Ok(old(rows)[i].shortCode) && rows == old(rows)
      ensures url.Some? && url.value != [] && FindByUrl(old(rows), url.value).None? &&
              FindByCode(old(rows), PLACEHOLDER).Some? ==>
        r == Err(IntegrityError) && rows == old(rows)
      ensures url.Some? && url.value != [] && FindByUrl(old(rows), url.value).None? &&
              FindByCode(old(rows), PLACEHOLDER).None? ==>
        var code := ShortCode(url.value, alphabet);
        var placeholder := UrlMap(NextId(old(rows)), url.value, PLACEHOLDER, 0, now, now + THIRTY_DAYS);
        if FindByCode(old(rows), code).Some? then
          r == Err(IntegrityError) && rows == old(rows) + [placeholder]
        else
          r == Ok(code) && rows == old(rows) + [placeholder.(shortCode := code)]
      // on success the URL is stored, live, under the returned code
      ensures r.Ok? ==> (url.Some? && FindByUrl(rows, url.value).Some? &&
        var i := FindByUrl(rows, url.value).value;
        rows[i].shortCode == r.value && !Expired(rows[i], now))
    {
      if url.None? || url.value == [] {
        return Err(URL_MISSING);
      }
      var u := url.value;
      var existing := FindByUrl(rows, u);
      if existing.Some? {
        var i := existing.value;
        if Expired(rows[i], now) {
          WellFormedRemoveAt(rows, i, alphabet);
          rows := RemoveAt(rows, i);
          return Err(URL_EXPIRED);
        }
        return Ok(rows[i].shortCode);
      }
      r := Create(u, now);
      if r.Ok? {
        assert rows[|rows| - 1].originalUrl == u;
      }
    }

    /**
     * GET /<short_code>. A known code gets one more click and redirects to its
     * URL with a scheme added when it has none; expiry is not looked at. An
     * unknown code fails with 404 and changes nothing.
     */
    method Resolve(code: string) returns (r: Result<string, Failure>)
      requires Valid()
      modifies this
      ensures Valid()
      ensures FindByCode(old(rows), code).None? ==> r == Err(URL_NOT_FOUND) && rows == old(rows)
      ensures FindByCode(old(rows), code).Some? ==>
        var i := FindByCode(old(rows), code).value;
        r == Ok(Normalize(old(rows)[i].originalUrl)) && rows == CountClick(old(rows), i)
    {
      var entry := FindByCode(rows, code);
      if entry.None? {
        return Err(URL_NOT_FOUND);
      }
      var i := entry.value;
      var target := Normalize(rows[i].originalUrl);
      WellFormedCountClick(rows, i, alphabet);
      rows := CountClick(rows, i);
      return Ok(target);
    }

    /**
     * GET /stats/<short_code>. An expired row is deleted and the request fails
     * with 410; a live one is reported without any change; an unknown code
     * fails with 404.
     */
    method GetStats(code: string, now: nat) returns (r: Result<Stats, Failure>)
      requires Valid()
      modifies this
      ensures Valid()
      ensures FindByCode(old(rows), code).None? ==> r == Err(SHORT_URL_NOT_FOUND) && rows == old(rows)
      ensures FindByCode(old(rows), code).Some? ==>
        var i := FindByCode(old(rows), code).value;
        var row := old(rows)[i];
        if Expired(row, now) then r == Err(URL_EXPIRED) && rows == RemoveAt(old(rows), i)
        else r == Ok(Stats(row.originalUrl, row.shortCode, row.clicks, row.createdAt)) && rows == old(rows)
    {
      var entry := FindByCode(rows, code);
      if entry.None? {
        return Err(SHORT_URL_NOT_FOUND);
      }
      var i := entry.value;
      if Expired(rows[i], now) {
        WellFormedRemoveAt(rows, i, alphabet);
        rows := RemoveAt(rows, i);
        return Err(URL_EXPIRED);
      }
      var row := rows[i];
      return Ok(Stats(row.originalUrl, row.shortCode, row.clicks, row.createdAt));
    }
  }

  /**
   * Shortening the same URL twice at the same instant: when the first call
   * succeeds, the second returns the same code and the table holds exactly
   * one row for the URL, carrying that code.
   */
  method ShortenTwice(store: UrlStore, url: string, now: nat) returns (r1: Result<string, Failure>, r2: Result<string, Failure>)
    requires store.Valid()
    modifies store
    ensures store.Valid()
    ensures r1.Ok? ==> r2 == r1
    ensures r1.Ok? ==>
      && FindByUrl(store.rows, url).Some?
      && store.rows[FindByUrl(store.rows, url).value].shortCode == r1.value
      && |store.rows| <= |old(store.rows)| + 1
  {
    r1 := store.Shorten(Some(url), now);
    r2 := store.Shorten(Some(url), now);
  }

  /**
   * Once a creation has failed at a commit, every later attempt to shorten a
   * URL that is not yet stored fails too: the placeholder row that stays
   * behind occupies the code "temp" that every new row starts with.
   */
  method FailedCreationBlocksNext(store: UrlStore, u1: string, u2: string, now1: nat, now2: nat)
    returns (r1: Result<string, Failure>, r2: Result<string, Failure>)
    requires store.Valid()
    requires u1 != [] && u2 != [] && u1 != u2
    requires FindByUrl(store.rows, u1).None? && FindByUrl(store.rows, u2).None?
    modifies store
    ensures store.Valid()
    ensures r1 == Err(IntegrityError) ==> r2 == Err(IntegrityError)
  {
    r1 := store.Shorten(Some(u1), now1);
    if r1 == Err(IntegrityError) {
      var last := |store.rows| - 1;
      if |store.rows| > |old(store.rows)| {
        assert store.rows[last].originalUrl == u1 && store.rows[last].shortCode == PLACEHOLDER;
      }
      assert FindByUrl(store.rows, u2).None?;
      assert FindByCode(store.rows, PLACEHOLDER).Some?;
    }
    r2 := store.Shorten(Some(u2), now2);
  }

  /**
   * Shorten, follow and inspect a new URL without a scheme (such as
   * "example.com/a"): the redirect goes to "http://" + URL and the statistics
   * show one click.
   */
  method ShortenResolveStats(store: UrlStore, url: string, now: nat)
    returns (created: Result<string, Failure>, target: Result<string, Failure>, stats: Result<Stats, Failure>)
    requires store.Valid()
    requires FindByUrl(store.rows, url).None?
    requires !StartsWith(url, "http://") && !StartsWith(url, "https://")
    modifies store
    ensures store.Valid()
    ensures created.Ok? ==> target == Ok("http://" + url)
    ensures created.Ok? ==> stats == Ok(Stats(url, created.value, 1, now))
  {
    created := store.Shorten(Some(url), now);
    if created.Err? {
      return created, created, Err(SHORT_URL_NOT_FOUND);
    }
    assert url != [] && FindByCode(old(store.rows), PLACEHOLDER).None?;
    assert FindByCode(old(store.rows), ShortCode(url, store.alphabet)).None?;
    ghost var created0 := UrlMap(NextId(old(store.rows)), url, created.value, 0, now, now + THIRTY_DAYS);
    assert store.rows == old(store.rows) + [created0];
    var last := |store.rows| - 1;
    FindByCodeUnique(store.rows, created.value, last);
    target := store.Resolve(created.value);
    assert target == Ok(Normalize(url));
    FindByCodeUnique(store.rows, created.value, last);
    stats := store.GetStats(created.value, now);
  }
}
