/**
 * The two request handlers of the shortener and the helpers they call:
 * shortening a long URL (validate, look it up, choose the next code, insert)
 * and following a short code to its long URL.
 */
module ShortUrls {
  import opened Storage
  import opened Base62

  /** The responses the handlers produce. */
  datatype Response =
    | BadRequest                         // 400, "Invalid URL format."
    | Shortened(shortUrl: string)        // 200, JSON body {"short_url": shortUrl}
    | InternalServerError                // 500
    | PermanentRedirect(location: string) // 308 with a Location header
    | NotFound                           // 404, "Short URL not found."

  /** The HTTP status line each response is sent with. */
  function StatusCode(r: Response): nat {
    match r
    case BadRequest => 400
    case Shortened(_) => 200
    case InternalServerError => 500
    case PermanentRedirect(_) => 308
    case NotFound => 404
  }

  /** Which of the three database round trips of a shorten request fail
      with a transport error. */
  datatype Faults = Faults(dedupLookup: bool, idLookup: bool, insert: bool)

  const NoFaults: Faults := Faults(false, false, false)

  /** The code issued when the table is empty. */
  const FirstCode: string := "a"

  /** A URL is accepted when it is non-empty and starts with http:// or
      https://; the non-emptiness test is implied by either prefix. */
  function IsValid(url: string): (ok: bool)
    ensures ok <==> "http://" <= url || "https://" <= url
    ensures ok ==> |url| >= 7
  {
    |url| > 0 && ("http://" <= url || "https://" <= url)
  }

  /** Every character of s is a 7-bit ASCII character, so the bytes of s
      form valid UTF-8. */
  ghost predicate IsAscii(s: string) {
    forall i :: 0 <= i < |s| ==> (s[i] as int) < 128
  }

  /** The literal first code is not the encoding of any number: the
      encoding of a positive number never ends in the zero digit 'a', and
      the encoding of zero is empty. */
  lemma FirstCodeNeverEncoded(n: nat)
    ensures Encode(n) != FirstCode
  {
    EncodeCanonical(n);
    assert Symbol(0) == 'a';
  }

  /** The code the next shortened URL receives, given the rows so far:
      "a" on an empty table, otherwise the encoding of the most recent id
      plus one. */
  function NextCode(rs: seq<Record>): (code: string)
    ensures code != [] && IsAscii(code) && OverAlphabet(code)
    ensures code == FirstCode <==> rs == []
  {
    if rs == [] then
      assert Symbol(0) == 'a';
      FirstCode
    else
      var n := rs[|rs| - 1].id + 1;
      EncodeCanonical(n);
      FirstCodeNeverEncoded(n);
      Encode(n)
  }

  /** The rows were all created by shorten requests run one after another:
      each row's code is the code NextCode chose from the rows before it. */
  ghost predicate Generated(rs: seq<Record>) {
    forall k {:trigger rs[..k]} :: 0 <= k < |rs| ==> rs[k].shortCode == NextCode(rs[..k])
  }

  lemma GeneratedPrefix(rs: seq<Record>, n: nat)
    requires Generated(rs) && IdsIncreasing(rs) && n <= |rs|
    ensures Generated(rs[..n]) && IdsIncreasing(rs[..n])
  {
    forall k | 0 <= k < n ensures rs[..n][k].shortCode == NextCode(rs[..n][..k]) {
      assert rs[..n][..k] == rs[..k];
    }
  }

  lemma GeneratedAppend(rs: seq<Record>, r: Record)
    requires Generated(rs) && r.shortCode == NextCode(rs)
    ensures Generated(rs + [r])
  {
    var rs' := rs + [r];
    forall k | 0 <= k < |rs'| ensures rs'[k].shortCode == NextCode(rs'[..k]) {
      if k < |rs| {
        assert rs'[..k] == rs[..k];
      } else {
        assert rs'[..k] == rs;
      }
    }
  }

  /** The code of each row of a sequential history: "a" for the first row,
      the encoding of the previous row's id plus one for the others. */
  lemma GeneratedAt(rs: seq<Record>, i: nat)
    requires Generated(rs) && i < |rs|
    ensures rs[i].shortCode == if i == 0 then FirstCode else Encode(rs[i - 1].id + 1)
  {
    var prior := rs[..i];
    assert i > 0 ==> prior[|prior| - 1] == rs[i - 1];
  }

  /** No row before the latest holds the encoding of the latest id plus
      one, given how codes are chosen and that ids increase. */
  lemma CodeBeforeLatest(rs: seq<Record>, i: nat)
    requires IdsIncreasing(rs) && i < |rs|
    requires rs[i].shortCode == if i == 0 then FirstCode else Encode(rs[i - 1].id + 1)
    ensures rs[i].shortCode != Encode(rs[|rs| - 1].id + 1)
  {
    var latest := rs[|rs| - 1].id;
    if i == 0 {
      FirstCodeNeverEncoded(latest + 1);
    } else {
      assert rs[i - 1].id < latest;
      EncodeInjective(rs[i - 1].id + 1, latest + 1);
    }
  }

  /** In a sequential history the next code is always fresh: no existing
      row holds it, so the insert never trips the short-code constraint. */
  lemma NextCodeFresh(rs: seq<Record>)
    requires Generated(rs) && IdsIncreasing(rs)
    ensures !Has(rs, ShortCode, NextCode(rs))
  {
    if rs != [] {
      forall i | 0 <= i < |rs| ensures rs[i].shortCode != NextCode(rs) {
        GeneratedAt(rs, i);
        CodeBeforeLatest(rs, i);
      }
    }
  }

  /** In a sequential history every row's short code is distinct, by the
      encoder's injectivity and the increasing ids alone. */
  lemma GeneratedCodesDistinct(rs: seq<Record>)
    requires Generated(rs) && IdsIncreasing(rs)
    ensures Unique(rs, ShortCode)
  {
    forall i, j | 0 <= i < j < |rs| ensures rs[i].shortCode != rs[j].shortCode {
      GeneratedPrefix(rs, j);
      NextCodeFresh(rs[..j]);
      assert rs[..j][i] == rs[i];
    }
  }

  /** generate_short_code: read the most recent id and encode it plus one;
      an empty table gives "a"; any other failure of the read is returned. */
  method GenerateShortCode(reg: Registry, fault: bool) returns (r: Result<string>)
    requires reg.Valid()
    ensures fault ==> r == Err(Unavailable)
    ensures !fault ==> r == Ok(NextCode(reg.records))
    ensures r.Ok? ==> r.value != [] && IsAscii(r.value)
  {
    var latest := reg.LatestId(fault);
    match latest
    case Ok(id) =>
      // The digits are ASCII, so the conversion to a String never falls
      // back to "a".
      var code := EncodeDigits(id + 1);
      r := Ok(code);
    case Err(e) =>
      if e == RowNotFound {
        r := Ok(FirstCode);
      } else {
        r := Err(e);
      }
  }

  /** fetch_long_url: the long URL stored under a short code; a missing row
      and a failed query both give None. */
  method FetchLongUrl(reg: Registry, code: string, fault: bool) returns (r: Option<string>)
    requires reg.Valid()
    ensures r.Some? <==> !fault && Has(reg.records, ShortCode, code)
    ensures !fault ==> forall i :: 0 <= i < |reg.records| && reg.records[i].shortCode == code ==>
                                    r == Some(reg.records[i].originalUrl)
  {
    var row := reg.FetchOne(ShortCode, code, fault);
    match row
    case Ok(rec) => r := Some(rec.originalUrl);
    case Err(_) => r := None;
  }

  /** fetch_short_code: the short code already issued for a long URL; a
      missing row and a failed query both give None. */
  method FetchShortCode(reg: Registry, url: string, fault: bool) returns (r: Option<string>)
    requires reg.Valid()
    ensures r.Some? <==> !fault && Has(reg.records, OriginalUrl, url)
    ensures !fault ==> forall i :: 0 <= i < |reg.records| && reg.records[i].originalUrl == url ==>
                                    r == Some(reg.records[i].shortCode)
  {
    var row := reg.FetchOne(OriginalUrl, url, fault);
    match row
    case Ok(rec) => r := Some(rec.shortCode);
    case Err(_) => r := None;
  }

  /** generate_short_url: validate, return the existing code of a known URL,
      otherwise choose the next code and insert; any failure after
      validation is a 500, with no retry. */
  method GenerateShortUrl(reg: Registry, url: string, faults: Faults) returns (resp: Response)
    requires reg.Valid()
    modifies reg
    ensures reg.Valid()
    ensures resp == BadRequest || resp == InternalServerError || resp.Shortened?
    // an invalid URL is rejected before any query
    ensures !IsValid(url) ==> resp == BadRequest && unchanged(reg)
    // a URL already shortened gets its existing code back, and nothing changes
    ensures IsValid(url) && !faults.dedupLookup ==>
              forall i :: 0 <= i < |old(reg.records)| && old(reg.records)[i].originalUrl == url ==>
                            resp == Shortened("/" + old(reg.records)[i].shortCode) && unchanged(reg)
    // otherwise the next code is chosen and inserted
    ensures (&& IsValid(url) && !Has(old(reg.records), OriginalUrl, url)
             && !faults.idLookup && !faults.insert && !Has(old(reg.records), ShortCode, NextCode(old(reg.records)))) ==>
              && resp == Shortened("/" + NextCode(old(reg.records)))
              && reg.records == old(reg.records) + [Record(old(reg.nextId), url, NextCode(old(reg.records)))]
              && reg.nextId == old(reg.nextId) + 1
    // ... and any failure on that path is a 500 that leaves the table as it was
    ensures (&& IsValid(url) && (faults.dedupLookup || !Has(old(reg.records), OriginalUrl, url))
             && (|| faults.idLookup || faults.insert || Has(old(reg.records), OriginalUrl, url)
                 || Has(old(reg.records), ShortCode, NextCode(old(reg.records))))) ==>
              resp == InternalServerError && unchanged(reg)
    // a short URL in the response always leads back to this URL
    ensures resp.Shortened? ==>
              exists i :: 0 <= i < |reg.records| && reg.records[i].originalUrl == url
                          && resp.shortUrl == "/" + reg.records[i].shortCode
    // a sequential history stays sequential, and its next code never collides
    ensures Generated(old(reg.records)) ==> Generated(reg.records)
    ensures (&& IsValid(url) && Generated(old(reg.records)) && !Has(old(reg.records), OriginalUrl, url)
             && !faults.idLookup && !faults.insert) ==> resp.Shortened?
  {
    if !IsValid(url) {
      return BadRequest;
    }
    var existing := FetchShortCode(reg, url, faults.dedupLookup);
    if existing.Some? {
      return Shortened("/" + existing.value);
    }
    var code := GenerateShortCode(reg, faults.idLookup);
    if code.Err? {
      return InternalServerError;
    }
    ghost var before := reg.records;
    if Generated(before) {
      NextCodeFresh(before);
    }
    var inserted := reg.Insert(url, code.value, faults.insert);
    match inserted
    case Ok(_) =>
      resp := Shortened("/" + code.value);
      assert reg.records[|before|] == Record(old(reg.nextId), url, code.value);
      if Generated(before) {
        GeneratedAppend(before, Record(old(reg.nextId), url, code.value));
      }
    case Err(_) =>
      resp := InternalServerError;
  }

  /** navigate_to_long_url: a 308 redirect to the stored URL, or 404 when the
      code is unknown or the lookup failed. */
  method NavigateToLongUrl(reg: Registry, code: string, fault: bool) returns (resp: Response)
    requires reg.Valid()
    ensures resp.PermanentRedirect? || resp == NotFound
    ensures resp.PermanentRedirect? <==> !fault && Has(reg.records, ShortCode, code)
    ensures StatusCode(resp) == (if !fault && Has(reg.records, ShortCode, code) then 308 else 404)
    ensures !fault ==> forall i :: 0 <= i < |reg.records| && reg.records[i].shortCode == code ==>
                                    resp == PermanentRedirect(reg.records[i].originalUrl)
  {
    var found := FetchLongUrl(reg, code, fault);
    match found
    case Some(originalUrl) => resp := PermanentRedirect(originalUrl);
    case None => resp := NotFound;
  }

  /** Following the short URL that a shorten request returned redirects to
      the URL that was shortened. */
  method ShortenThenNavigate(reg: Registry, url: string, faults: Faults, navigateFault: bool)
    returns (shortened: Response, navigated: Response)
    requires reg.Valid()
    modifies reg
    ensures reg.Valid()
    ensures shortened.Shortened? && !navigateFault ==> navigated == PermanentRedirect(url)
  {
    shortened := GenerateShortUrl(reg, url, faults);
    if shortened.Shortened? {
      var path := shortened.shortUrl;
      var i :| 0 <= i < |reg.records| && reg.records[i].originalUrl == url && path == "/" + reg.records[i].shortCode;
      assert path[1..] == reg.records[i].shortCode;
      navigated := NavigateToLongUrl(reg, path[1..], navigateFault);
    } else {
      navigated := NotFound;
    }
  }

  /** Shortening the same URL twice gives the same short URL, and the second
      request adds no row. */
  method ShortenTwice(reg: Registry, url: string, first: Faults, second: Faults)
    returns (r1: Response, r2: Response)
    requires reg.Valid()
    modifies reg
    ensures reg.Valid()
    ensures r1.Shortened? && !second.dedupLookup ==> r2 == r1
    ensures |reg.records| <= |old(reg.records)| + 1
  {
    r1 := GenerateShortUrl(reg, url, first);
    r2 := GenerateShortUrl(reg, url, second);
  }

  /** The URLs of the handler's tests: the empty string and a non-HTTP
      scheme are refused, both HTTP schemes are accepted. */
  lemma ValidationExamples()
    ensures !IsValid("") && !IsValid("ftp://x")
    ensures IsValid("http://x") && IsValid("https://x")
    ensures IsValid("https://www.example.com/some/long/url")
  {
    assert "ftp://x"[0] != "http://"[0] && "ftp://x"[0] != "https://"[0];
  }

  /** A session on an empty table: the first URL gets "a", the next one the
      encoding of 1 + 1, a repeated URL its old code, and following "a"
      redirects to the first URL. */
  method ExampleSession()
    returns (first: Response, second: Response, again: Response, followed: Response)
    ensures first == Shortened("/a")
    ensures second == Shortened("/c")
    ensures again == Shortened("/a")
    ensures followed == PermanentRedirect("https://example.com/a")
  {
    var a, b := "https://example.com/a", "https://example.com/b";
    assert a != b by {
      assert a[20] != b[20];
    }
    assert "/" + FirstCode == "/a";
    var c := Encode(2);
    assert c == "c" by {
      assert Encode(2) == [Symbol(2)] + Encode(0);
    }
    assert "/" + c == "/c";

    var reg := new Registry();
    assert !Has(reg.records, OriginalUrl, a) && !Has(reg.records, ShortCode, FirstCode);
    first := GenerateShortUrl(reg, a, NoFaults);
    assert reg.records == [] + [Record(1, a, FirstCode)];

    var rs1 := reg.records;
    assert rs1[0] == Record(1, a, "a") && |rs1| == 1;
    assert NextCode(rs1) == c;
    assert !Has(rs1, OriginalUrl, b) && !Has(rs1, ShortCode, c);
    second := GenerateShortUrl(reg, b, NoFaults);
    assert reg.records == rs1 + [Record(2, b, c)];

    assert reg.records[0].originalUrl == a && reg.records[0].shortCode == "a";
    again := GenerateShortUrl(reg, a, NoFaults);
    followed := NavigateToLongUrl(reg, "a", false);
  }
}
