/** Pagination in QueryList: defaulting of page and page size, the offset,
    and the window of rows a page selects. */
module Paging {

  const Int64Min: int := -0x8000_0000_0000_0000
  const Int64Max: int := 0x7fff_ffff_ffff_ffff
  const Two64: int := 0x1_0000_0000_0000_0000

  /** Go's `int` on a 64-bit platform. */
  type GoInt = x: int | Int64Min <= x <= Int64Max

  const DefaultPage: GoInt := 1
  const DefaultPageSize: GoInt := 10

  function Min(a: int, b: int): int { if a <= b then a else b }

  /** Two's-complement wrap-around of Go's `int` arithmetic. */
  function Wrap(x: int): (r: GoInt)
    ensures (x - r) % Two64 == 0
    ensures Int64Min <= x <= Int64Max ==> r == x
  {
    var m := x % Two64;
    if m <= Int64Max then m else m - Two64
  }

  /** Page number and page size after QueryList has defaulted them. */
  datatype Paging = Paging(page: GoInt, pageSize: GoInt)

  /** `page <= 0` becomes 1, `pagesize < 0` becomes 10, everything else
      (a page size of 0 included) is kept. */
  function Normalise(page: GoInt, pageSize: GoInt): (p: Paging)
    ensures p.page >= 1 && p.pageSize >= 0
    ensures page >= 1 ==> p.page == page
    ensures page <= 0 ==> p.page == DefaultPage
    ensures pageSize >= 0 ==> p.pageSize == pageSize
    ensures pageSize < 0 ==> p.pageSize == DefaultPageSize
  {
    Paging(if page <= 0 then DefaultPage else page,
           if pageSize < 0 then DefaultPageSize else pageSize)
  }

  /** Normalising twice changes nothing more. */
  lemma NormaliseIdempotent(page: GoInt, pageSize: GoInt)
    ensures var p := Normalise(page, pageSize);
            Normalise(p.page, p.pageSize) == p
  {
  }

  /** Every page number below 1 selects what page 1 selects, and every
      negative page size what page size 10 selects. */
  lemma NormaliseDefaults(page: GoInt, pageSize: GoInt)
    ensures page <= 0 ==> Normalise(page, pageSize) == Normalise(1, pageSize)
    ensures pageSize < 0 ==> Normalise(page, pageSize) == Normalise(page, 10)
  {
  }

  /** `offset := (page - 1) * pagesize` exactly as Go evaluates it on
      `int`: the product wraps around. */
  function OffsetAsWritten(p: Paging): (o: GoInt)
    requires p.page >= 1
    ensures (o - (p.page - 1) * p.pageSize) % Two64 == 0
  {
    Wrap((p.page - 1) * p.pageSize)
  }

  /** Once the product exceeds Go's int range, the offset the code computes
      is negative, although page and page size have been normalised. */
  lemma OffsetAsWrittenCanBeNegative()
    ensures var p := Normalise(0x4000_0000_0000_0001, 2);
            OffsetAsWritten(p) == Int64Min
  {
    var p := Normalise(0x4000_0000_0000_0001, 2);
    assert (p.page - 1) * p.pageSize == 0x8000_0000_0000_0000;
  }

  /** The offset the code intends: the number of rows on the pages before
      `p.page`, computed without wrap-around. */
  function Offset(p: Paging): (o: nat)
    requires p.page >= 1 && p.pageSize >= 0
    ensures o == 0 <==> p.page == 1 || p.pageSize == 0
    ensures o == 0 || (o >= p.page - 1 && o >= p.pageSize)
  {
    var before: nat := p.page - 1;
    assert before > 0 && p.pageSize > 0 ==> before * p.pageSize >= before && before * p.pageSize >= p.pageSize;
    before * p.pageSize
  }

  /** Where the product fits in an int, the code's offset is the intended one. */
  lemma OffsetAgrees(p: Paging)
    requires p.page >= 1 && p.pageSize >= 0
    requires (p.page - 1) * p.pageSize <= Int64Max
    ensures OffsetAsWritten(p) == Offset(p)
  {
  }

  /** Each page starts where the previous one ends. */
  lemma OffsetOfNextPage(p: Paging)
    requires p.page >= 1 && p.pageSize >= 0 && p.page < Int64Max
    ensures Offset(Paging(p.page + 1, p.pageSize)) == Offset(p) + p.pageSize
  {
  }

  /** The rows in positions `[offset, offset + limit)` of `s`, clipped to its
      length: what `Offset(offset).Limit(limit)` selects. */
  function Window<T>(s: seq<T>, offset: nat, limit: nat): (w: seq<T>)
    ensures |w| == if offset >= |s| then 0 else Min(limit, |s| - offset)
    ensures forall i :: 0 <= i < |w| ==> w[i] == s[offset + i]
  {
    if offset >= |s| then [] else s[offset..offset + Min(limit, |s| - offset)]
  }

  /** The number of pages of size `size` that `count` rows fill:
      ceil(count / size). */
  function PageCount(count: nat, size: nat): (n: nat)
    requires size > 0
    ensures n * size >= count
    ensures n > 0 ==> (n - 1) * size < count
  {
    var q := (count + size - 1) / size;
    assert q * size + (count + size - 1) % size == count + size - 1;
    q
  }

  /** The number of rows k pages of size `size` span, counted page by page. */
  function Span(k: nat, size: nat): nat
  {
    if k == 0 then 0 else Span(k - 1, size) + size
  }

  lemma {:induction false} SpanIsProduct(k: nat, size: nat)
    ensures Span(k, size) == k * size
  {
    if k > 0 {
      SpanIsProduct(k - 1, size);
      assert k * size == (k - 1) * size + size;
    }
  }

  /** Pages 1 to k of `s`, one after another. */
  function Pages<T>(s: seq<T>, size: nat, k: nat): seq<T>
  {
    if k == 0 then [] else Pages(s, size, k - 1) + Window(s, Span(k - 1, size), size)
  }

  /** A prefix of the rows followed by the window right after it is a
      longer prefix. */
  lemma PrefixThenWindow<T>(s: seq<T>, lo: nat, size: nat)
    ensures s[..Min(|s|, lo)] + Window(s, lo, size) == s[..Min(|s|, lo + size)]
  {
    if lo < |s| {
      var hi := Min(|s|, lo + size);
      assert Window(s, lo, size) == s[lo..hi];
      assert s[..lo] + s[lo..hi] == s[..hi];
    }
  }

  /** The first k pages are the first Span(k, size) rows (clipped). */
  lemma {:induction false} PagesArePrefix<T>(s: seq<T>, size: nat, k: nat)
    ensures Pages(s, size, k) == s[..Min(|s|, Span(k, size))]
  {
    if k > 0 {
      PagesArePrefix(s, size, k - 1);
      PrefixThenWindow(s, Span(k - 1, size), size);
    }
  }

  lemma MulMono(a: nat, b: nat, c: nat)
    requires a >= b
    ensures a * c >= b * c
  {
  }

  /** Reading pages 1 to ceil(count / size) returns every row exactly once,
      in order: the count QueryList reports is what a caller needs to page
      through the whole result. */
  lemma PagesCoverAll<T>(s: seq<T>, size: nat)
    requires size > 0
    ensures Pages(s, size, PageCount(|s|, size)) == s
  {
    PagesArePrefix(s, size, PageCount(|s|, size));
    SpanIsProduct(PageCount(|s|, size), size);
  }

  /** The pages PagesCoverAll walks through are the pages QueryList
      delivers: page k of `Pages` starts at the offset QueryList computes
      for page k. */
  lemma OffsetIsSpan<T>(s: seq<T>, p: Paging)
    requires p.page >= 1 && p.pageSize >= 0
    ensures Offset(p) == Span(p.page - 1, p.pageSize)
    ensures Pages(s, p.pageSize, p.page) == Pages(s, p.pageSize, p.page - 1) + Window(s, Offset(p), p.pageSize)
  {
    SpanIsProduct(p.page - 1, p.pageSize);
  }

  /** A page beyond the last holds no rows. */
  lemma PageBeyondLastIsEmpty<T>(s: seq<T>, p: Paging)
    requires p.page >= 1 && p.pageSize > 0
    requires p.page > PageCount(|s|, p.pageSize)
    ensures Window(s, Offset(p), p.pageSize) == []
  {
    var n := PageCount(|s|, p.pageSize);
    MulMono(p.page - 1, n, p.pageSize);
  }
}
