/**
 * The short_urls table as the handlers see it through their queries: an
 * ordered list of rows (insertion order is "most recent last"), an id
 * sequence that only grows, and unique constraints on the long URL and on
 * the short code. Each query takes a flag `fault` that stands for the
 * database being unreachable for that round trip.
 */
module Storage {

  datatype Option<T> = None | Some(value: T)

  /** One row of short_urls (the created_at timestamp is represented by the
      row's position: later rows were created later). */
  datatype Record = Record(id: nat, originalUrl: string, shortCode: string)

  /** The two columns the queries filter on. */
  datatype Column = OriginalUrl | ShortCode

  /** How a query can fail: fetch_one on no rows, a unique-constraint
      violation on insert, or a transport failure. */
  datatype StorageError = RowNotFound | UniqueViolation | Unavailable

  datatype Result<T> = Ok(value: T) | Err(error: StorageError)

  function Field(r: Record, col: Column): string {
    match col
    case OriginalUrl => r.originalUrl
    case ShortCode => r.shortCode
  }

  /** Whether some row has `key` in column `col`. */
  ghost predicate Has(rs: seq<Record>, col: Column, key: string) {
    exists i :: 0 <= i < |rs| && Field(rs[i], col) == key
  }

  /** The position of the first row whose column `col` equals `key`
      (SELECT ... WHERE col = key, first row). */
  function IndexWhere(rs: seq<Record>, col: Column, key: string): (r: Option<nat>)
    ensures r.None? <==> !Has(rs, col, key)
    ensures r.Some? ==> r.value < |rs| && Field(rs[r.value], col) == key
    ensures r.Some? ==> forall j :: 0 <= j < r.value ==> Field(rs[j], col) != key
  {
    if rs == [] then None
    else if Field(rs[0], col) == key then Some(0)
    else
      match IndexWhere(rs[1..], col, key)
      case None =>
        assert forall j :: 1 <= j < |rs| ==> rs[j] == rs[1..][j - 1];
        None
      case Some(i) => Some(i + 1)
  }

  /** No two rows share a value in column `col` (a unique constraint). */
  ghost predicate Unique(rs: seq<Record>, col: Column) {
    forall i, j :: 0 <= i < j < |rs| ==> Field(rs[i], col) != Field(rs[j], col)
  }

  ghost predicate IdsIncreasing(rs: seq<Record>) {
    forall i, j :: 0 <= i < j < |rs| ==> rs[i].id < rs[j].id
  }

  /** Under a unique constraint, the row found by a value is the one row
      holding that value. */
  lemma {:induction false} IndexOfUnique(rs: seq<Record>, col: Column, k: nat)
    requires Unique(rs, col) && k < |rs|
    ensures IndexWhere(rs, col, Field(rs[k], col)) == Some(k)
  {
    assert Has(rs, col, Field(rs[k], col));
  }

  /** The database: the rows of short_urls and the next value of the id
      sequence. */
  class Registry {
    var records: seq<Record>
    var nextId: nat

    /** The table's constraints: ids come from the sequence (positive,
        below the next value, increasing in insertion order) and both the
        long URL and the short code are unique. */
    ghost predicate Valid()
      reads this
    {
      && nextId >= 1
      && (forall i :: 0 <= i < |records| ==> 1 <= records[i].id < nextId)
      && IdsIncreasing(records)
      && Unique(records, OriginalUrl)
      && Unique(records, ShortCode)
    }

    /** A freshly migrated, empty table. */
    constructor ()
      ensures Valid() && records == [] && nextId == 1
    {
      records := [];
      nextId := 1;
    }

    /** `SELECT ... FROM short_urls WHERE col = key` with fetch_one: the
        matching row, RowNotFound when there is none. */
    method FetchOne(col: Column, key: string, fault: bool) returns (r: Result<Record>)
      requires Valid()
      ensures fault ==> r == Err(Unavailable)
      ensures !fault ==> (r.Ok? <==> Has(records, col, key))
      ensures !fault && r.Err? ==> r.error == RowNotFound
      ensures r.Ok? ==> r.value in records && Field(r.value, col) == key
      ensures r.Ok? ==> forall i :: 0 <= i < |records| && Field(records[i], col) == key ==> records[i] == r.value
    {
      if fault {
        return Err(Unavailable);
      }
      match IndexWhere(records, col, key)
      case None =>
        r := Err(RowNotFound);
      case Some(i) =>
        r := Ok(records[i]);
        forall j | 0 <= j < |records| && Field(records[j], col) == key
          ensures records[j] == r.value
        {
          IndexOfUnique(records, col, j);
        }
    }

    /** `SELECT id FROM short_urls ORDER BY created_at DESC LIMIT 1` with
        fetch_one: the id of the most recently inserted row, which is also
        the largest id in the table. */
    method LatestId(fault: bool) returns (r: Result<nat>)
      requires Valid()
      ensures fault ==> r == Err(Unavailable)
      ensures !fault && records == [] ==> r == Err(RowNotFound)
      ensures !fault && records != [] ==> r == Ok(records[|records| - 1].id)
      ensures r.Ok? ==> forall i :: 0 <= i < |records| ==> records[i].id <= r.value
    {
      if fault {
        r := Err(Unavailable);
      } else if records == [] {
        r := Err(RowNotFound);
      } else {
        r := Ok(records[|records| - 1].id);
      }
    }

    /** `INSERT INTO short_urls (original_url, short_code, created_at)`: the
        row gets the next id; the unique constraints reject a duplicate long
        URL or short code, and a failed insert changes nothing. */
    method Insert(url: string, code: string, fault: bool) returns (r: Result<()>)
      requires Valid()
      modifies this
      ensures Valid()
      ensures r.Ok? <==> !fault && !Has(old(records), OriginalUrl, url) && !Has(old(records), ShortCode, code)
      ensures fault ==> r == Err(Unavailable)
      ensures !fault && r.Err? ==> r.error == UniqueViolation
      ensures r.Ok? ==> records == old(records) + [Record(old(nextId), url, code)] && nextId == old(nextId) + 1
      ensures r.Err? ==> unchanged(this)
    {
      if fault {
        return Err(Unavailable);
      }
      if IndexWhere(records, OriginalUrl, url).Some? || IndexWhere(records, ShortCode, code).Some? {
        return Err(UniqueViolation);
      }
      records := records + [Record(nextId, url, code)];
      nextId := nextId + 1;
      r := Ok(());
    }
  }
}
