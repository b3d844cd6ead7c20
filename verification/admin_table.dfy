/**
 * The admin data table component: the fetched records, the searched list,
 * the page counters and the page shown, changed by one handler per UI event.
 */
module AdminTable {
  import opened Wrappers
  import opened Text
  import opened CertRecords
  import opened Pagination
  import opened CsvExport

  /** What the record-fetch wire delivers: the records, an error, or (at first) neither. */
  datatype FetchResult = Fetched(data: seq<CertRecord>) | FetchFailed(reason: string) | NothingYet

  /** A freshly loaded list is its own unsearched list, shown from page 1 of its pages. */
  lemma FreshLoad(recs: seq<CertRecord>, size: nat)
    requires size >= 1
    ensures SearchRecords(recs, "") == recs
    ensures Page(recs, 1, size) == Slice(recs, 0, size) == recs[..Min(size, |recs|)]
    ensures recs != [] ==> 1 <= PageCount(|recs|, size)
  {
    FirstPage(recs, size);
  }

  /** An emptied list stays empty under any search and shows an empty page. */
  lemma EmptiedLoad(key: string, page: nat, size: nat)
    requires page >= 1 && size >= 1
    ensures SearchRecords([], key) == []
    ensures Page<CertRecord>([], page, size) == []
  {
  }

  class SelfCertificationAdmin {
    var certifications: seq<CertRecord>   // the list after search
    var paginatedData: seq<CertRecord>    // the page shown
    var initialRecords: seq<CertRecord>   // the full list as fetched
    var error: Option<string>
    var selectedRows: seq<CertRecord>
    var pageSize: nat
    var currentPage: nat
    var totalPages: nat
    /** The lower-cased key behind `certifications`: the last search, or "" after a load. */
    ghost var searchKey: string

    /**
     * The table's invariant. The page counters describe `certifications`
     * while it is non-empty; an empty list without a load error is page 1
     * of 0 pages. Only after a load error may the counters keep their old
     * values (the error branch does not reset them).
     */
    ghost predicate Valid()
      reads this
    {
      pageSize >= 1 && currentPage >= 1 &&
      certifications == SearchRecords(initialRecords, searchKey) &&
      paginatedData == Page(certifications, currentPage, pageSize) &&
      (certifications != [] ==> totalPages == PageCount(|certifications|, pageSize) && currentPage <= totalPages) &&
      (certifications == [] && error.None? ==> currentPage == 1 && totalPages == 0)
    }

    constructor ()
      ensures Valid()
      ensures certifications == [] && paginatedData == [] && initialRecords == [] && selectedRows == []
      ensures error == None && pageSize == 10 && currentPage == 1 && totalPages == 0
    {
      certifications := [];
      paginatedData := [];
      initialRecords := [];
      error := None;
      selectedRows := [];
      pageSize := 10;
      currentPage := 1;
      totalPages := 0;
      searchKey := "";
    }

    /**
     * `wiredCertifications`: a delivered list is decorated and shown from
     * its first page; an error empties the three lists and keeps the page
     * counters; no delivery changes nothing.
     */
    method WiredCertifications(result: FetchResult)
      requires Valid()
      modifies this
      ensures Valid()
      ensures selectedRows == old(selectedRows) && pageSize == old(pageSize)
      ensures result.Fetched? ==>
        var decorated := Decorate(result.data);
        initialRecords == decorated && certifications == decorated &&
        currentPage == 1 && totalPages == PageCount(|decorated|, pageSize) &&
        paginatedData == decorated[..Min(pageSize, |decorated|)] && error == None
      ensures result.FetchFailed? ==>
        initialRecords == [] && certifications == [] && paginatedData == [] &&
        error == Some(result.reason) &&
        currentPage == old(currentPage) && totalPages == old(totalPages)
      ensures result.NothingYet? ==> unchanged(this)
    {
      if result.Fetched? {
        var decorated := Decorate(result.data);
        certifications := decorated;
        initialRecords := decorated;
        totalPages := PageCount(|certifications|, pageSize);
        currentPage := 1;
        paginatedData := Slice(certifications, 0, pageSize);
        error := None;
        searchKey := "";
        FreshLoad(decorated, pageSize);
      } else if result.FetchFailed? {
        error := Some(result.reason);
        certifications := [];
        paginatedData := [];
        initialRecords := [];
        EmptiedLoad(searchKey, currentPage, pageSize);
      }
    }

    /**
     * `updatePaginatedData`: shows page `currentPage` of `certifications`;
     * an empty list gives an empty page and no pages.
     */
    method UpdatePaginatedData()
      requires pageSize >= 1 && currentPage >= 1
      modifies this`paginatedData, this`totalPages
      ensures paginatedData == Page(certifications, currentPage, pageSize)
      ensures certifications == [] ==> paginatedData == [] && totalPages == 0
      ensures certifications != [] ==> totalPages == old(totalPages)
    {
      if |certifications| == 0 {
        paginatedData := [];
        totalPages := 0;
        return;
      }
      paginatedData := Page(certifications, currentPage, pageSize);
    }

    /**
     * `handleSearch`: the list becomes every fetched record for an empty
     * key, otherwise the records with a field value containing the key,
     * both case-insensitively; the table goes back to page 1.
     */
    method HandleSearch(value: string)
      requires Valid()
      modifies this
      ensures Valid()
      ensures searchKey == Lower(value)
      ensures value == "" ==> certifications == initialRecords
      ensures value != "" ==> certifications == Filter(initialRecords, Lower(value))
      ensures initialRecords == old(initialRecords) && selectedRows == old(selectedRows)
      ensures pageSize == old(pageSize) && error == old(error)
      ensures currentPage == 1 && totalPages == PageCount(|certifications|, pageSize)
      ensures paginatedData == Page(certifications, 1, pageSize)
    {
      var key := Lower(value);
      if key != "" {
        certifications := Filter(initialRecords, key);
      } else {
        certifications := initialRecords;
      }
      totalPages := PageCount(|certifications|, pageSize);
      currentPage := 1;
      searchKey := key;
      UpdatePaginatedData();
    }

    /** `handleRowSelection`: the selection becomes the rows the table reports. */
    method HandleRowSelection(rows: seq<CertRecord>)
      requires Valid()
      modifies this`selectedRows
      ensures Valid()
      ensures selectedRows == rows
    {
      selectedRows := rows;
    }

    /** `handlePageSizeChange`: new page size, page count recomputed, back to page 1. */
    method HandlePageSizeChange(newSize: nat)
      requires Valid()
      requires newSize >= 1
      modifies this
      ensures Valid()
      ensures pageSize == newSize && currentPage == 1
      ensures totalPages == PageCount(|certifications|, newSize)
      ensures paginatedData == Page(certifications, 1, newSize)
      ensures certifications == old(certifications) && initialRecords == old(initialRecords)
      ensures selectedRows == old(selectedRows) && error == old(error)
    {
      pageSize := newSize;
      totalPages := PageCount(|certifications|, pageSize);
      currentPage := 1;
      UpdatePaginatedData();
    }

    /** `handlePrevious`: one page back, or nothing at all on page 1. */
    method HandlePrevious()
      requires Valid()
      modifies this
      ensures Valid()
      ensures old(currentPage) <= 1 ==> unchanged(this)
      ensures old(currentPage) > 1 ==>
        currentPage == old(currentPage) - 1 &&
        paginatedData == Page(certifications, currentPage, pageSize) &&
        totalPages == (if certifications == [] then 0 else old(totalPages)) &&
        certifications == old(certifications) && initialRecords == old(initialRecords) &&
        selectedRows == old(selectedRows) && pageSize == old(pageSize) && error == old(error)
    {
      if currentPage > 1 {
        currentPage := currentPage - 1;
        UpdatePaginatedData();
      }
    }

    /** `handleNext`: one page on, or nothing at all from the last page. */
    method HandleNext()
      requires Valid()
      modifies this
      ensures Valid()
      ensures old(currentPage) >= old(totalPages) ==> unchanged(this)
      ensures old(currentPage) < old(totalPages) ==>
        currentPage == old(currentPage) + 1 &&
        paginatedData == Page(certifications, currentPage, pageSize) &&
        totalPages == (if certifications == [] then 0 else old(totalPages)) &&
        certifications == old(certifications) && initialRecords == old(initialRecords) &&
        selectedRows == old(selectedRows) && pageSize == old(pageSize) && error == old(error)
    {
      if currentPage < totalPages {
        currentPage := currentPage + 1;
        UpdatePaginatedData();
      }
    }

    /** `isPreviousDisabled`: the Previous button is off exactly when `handlePrevious` would do nothing. */
    predicate IsPreviousDisabled()
      reads this
      requires Valid()
      ensures IsPreviousDisabled() <==> !(currentPage > 1)
    {
      currentPage == 1
    }

    /**
     * `isNextDisabled`: while the list is non-empty the Next button is off
     * exactly when `handleNext` would do nothing. On an empty list with no
     * pages it stays on, though `handleNext` then does nothing.
     */
    predicate IsNextDisabled()
      reads this
      requires Valid()
      ensures certifications != [] ==> (IsNextDisabled() <==> !(currentPage < totalPages))
      ensures IsNextDisabled() ==> !(currentPage < totalPages)
    {
      currentPage == totalPages
    }

    /**
     * `handleTestExport` up to the download: no text for an empty
     * selection, otherwise the header line followed by one line per
     * selected row, in selection order. The table is not changed.
     */
    method HandleTestExport(dateOnly: string -> string) returns (csv: Option<string>)
      ensures selectedRows == [] ==> csv == None
      ensures selectedRows != [] ==> csv == Some(CsvDocument(selectedRows, dateOnly))
    {
      var data := selectedRows;
      if |data| == 0 {
        return None;
      }
      var text := Header;
      for i := 0 to |data|
        invariant text == CsvDocument(data[..i], dateOnly)
      {
        assert data[..i + 1] == data[..i] + [data[i]];
        CsvDocumentSnoc(data[..i], data[i], dateOnly);
        text := text + RowText(data[i], dateOnly) + "\n";
      }
      assert data[..|data|] == data;
      csv := Some(text);
    }
  }

  /**
   * A load error after paging leaves stale counters: with 21 rows at 10
   * per page, moving to page 2, then failing a reload and pressing Next
   * leaves page 3 of 0 pages on an empty table.
   */
  method StaleCountersAfterLoadError()
  {
    var table := new SelfCertificationAdmin();
    var row := CertRecord([], "", "", "", None, None);
    table.WiredCertifications(Fetched(seq(21, _ => row)));
    assert table.totalPages == 3;
    table.HandleNext();
    assert table.currentPage == 2;
    table.WiredCertifications(FetchFailed("unavailable"));
    table.HandleNext();
    assert table.currentPage == 3 && table.totalPages == 0 && table.paginatedData == [];
  }
}
