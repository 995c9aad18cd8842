/** The Spring Data paging values the services build: a page request (`Pageable`) and a page
    of results (`PageImpl`), with the total adjustment `PageImpl`'s constructor applies. */
module Paging {
  import opened Reactive

  /** `PageRequest` refuses a page size below one. */
  type PageSize = x: int | 1 <= x witness 1

  /** A paged request: zero-based page number and page size (`Pageable.ofSize(n)` is page 0). */
  datatype Pageable = Pageable(pageNumber: nat, pageSize: PageSize) {
    /** `getOffset`: how many elements the earlier pages cover. */
    function Offset(): nat {
      pageNumber * pageSize
    }
  }

  /** How many of `count` stored elements a page starting at `offset` holds. */
  function SliceLength(count: nat, offset: nat, size: nat): (n: nat)
    ensures n <= size
    ensures offset + n <= count || n == 0
    ensures n < size ==> offset + n >= count
  {
    if offset >= count then 0 else Min(size, count - offset)
  }

  datatype Page<T> = Page(content: seq<T>, pageable: Pageable, total: nat) {
    /** `getTotalPages`: the number of pages of this size needed for `total` elements, that
        is the ceiling of `total / size`. */
    function TotalPages(): nat {
      (total + pageable.pageSize - 1) / pageable.pageSize
    }

    /** The total is one the constructor would keep: when the content is not empty and the
        page reaches past the total, the total is the offset plus the content size. */
    predicate Settled() {
      |content| > 0 && pageable.Offset() + pageable.pageSize > total ==> total == pageable.Offset() + |content|
    }

    /** `getNumber`: the page index requested. */
    function Number(): nat {
      pageable.pageNumber
    }
  }

  /** `new PageImpl(content, pageable, total)`. The constructor distrusts a `total` that
      is smaller than the page proves: when the content is not empty and the page reaches
      past `total`, the total becomes the offset plus the content size. */
  function NewPage<T>(content: seq<T>, pageable: Pageable, total: nat): (p: Page<T>)
    ensures p.content == content && p.pageable == pageable
    ensures content == [] ==> p.total == total
    ensures !(|content| > 0 && pageable.Offset() + pageable.pageSize > total) ==> p.total == total
    ensures |content| > 0 && pageable.Offset() + pageable.pageSize > total ==> p.total == pageable.Offset() + |content|
    ensures 0 < |content| <= pageable.pageSize ==> p.total >= pageable.Offset() + |content|
    ensures p.Settled()
  {
    var adjusted := |content| > 0 && pageable.Offset() + pageable.pageSize > total;
    Page(content, pageable, if adjusted then pageable.Offset() + |content| else total)
  }

  /** `Page.map`: a page of the transformed content on the same request and total. */
  function MapPage<T, U>(p: Page<T>, f: T -> U): (r: Page<U>)
    ensures r.content == MapSeq(p.content, f) && r.pageable == p.pageable
    ensures p.Settled() ==> r.total == p.total
  {
    NewPage(MapSeq(p.content, f), p.pageable, p.total)
  }

  /** When the content is exactly the slice a store of `count` elements yields for the
      request, the constructor keeps `count` as the total. */
  lemma ConsistentSliceKeepsTotal<T>(content: seq<T>, pageable: Pageable, count: nat)
    requires |content| == SliceLength(count, pageable.Offset(), pageable.pageSize)
    ensures NewPage(content, pageable, count).total == count
  {
  }

  /** `TotalPages` is the ceiling of `total / size`: enough pages for every element, and no
      page more than needed. */
  lemma TotalPagesIsCeiling<T>(p: Page<T>)
    ensures p.TotalPages() * p.pageable.pageSize >= p.total
    ensures p.total > 0 ==> (p.TotalPages() - 1) * p.pageable.pageSize < p.total
    ensures p.total == 0 ==> p.TotalPages() == 0
  {
    var n, size := p.total, p.pageable.pageSize;
    var q, m := (n + size - 1) / size, (n + size - 1) % size;
    assert n + size - 1 == q * size + m;
    assert p.TotalPages() == q;
  }
}
