/**
 Paging of list queries (backend/utils/pagination.js) and the `pages` figure
 the list responses report next to it. Request values arrive as integers here;
 the model starts after `parseInt`.
 */
module Pagination {
  import opened Results

  const DefaultPage := 1
  const DefaultLimit := 20
  const MaxLimit := 100

  /** The window a page request turns into: fetch `limit` rows after skipping `offset`. */
  datatype Window = Window(limit: nat, offset: nat)

  /** `paginate(page, limit)`: page clamped to at least 1, limit clamped into [1, 100]. */
  function Paginate(page: int, limit: int): (w: Window)
    ensures 1 <= w.limit <= MaxLimit
    ensures 1 <= limit <= MaxLimit ==> w.limit == limit
    ensures limit < 1 ==> w.limit == 1
    ensures limit > MaxLimit ==> w.limit == MaxLimit
    ensures w.offset % w.limit == 0
    ensures w.offset / w.limit + 1 == Max(1, page)
  {
    var p := Max(1, page);
    var l := Min(MaxLimit, Max(1, limit));
    OffsetOfPage(p, l);
    Window(l, (p - 1) * l)
  }

  lemma OffsetOfPage(p: int, l: int)
    requires p >= 1 && l >= 1
    ensures ((p - 1) * l) % l == 0 && ((p - 1) * l) / l == p - 1
  {
    LemmaMulDiv(p - 1, l);
  }

  lemma LemmaMulDiv(q: nat, l: int)
    requires l >= 1
    ensures (q * l) % l == 0 && (q * l) / l == q
  {
    DivUnique(q * l, l, q, 0);
  }

  /** Division is determined by any quotient and in-range remainder. */
  lemma DivUnique(n: int, l: int, q: int, r: int)
    requires l >= 1 && n == q * l + r && 0 <= r < l
    ensures n / l == q && n % l == r
  {
    var a := q - n / l;
    assert a * l == n % l - r by {
      assert n == (n / l) * l + n % l;
      assert a * l == q * l - (n / l) * l;
    }
    if a >= 1 {
      LemmaMulLe(1, a, l);
    } else if a <= -1 {
      LemmaMulLe(a, -1, l);
    }
  }

  /** The rows `offset .. offset + limit - 1` of `s`, as far as they exist:
      what a query with `LIMIT limit OFFSET offset` returns. */
  function Slice<T>(s: seq<T>, offset: nat, limit: nat): (r: seq<T>)
    ensures |r| <= limit
    ensures |r| == Max(0, Min(offset + limit, |s|) - offset)
    ensures forall i :: 0 <= i < |r| ==> offset + i < |s| && r[i] == s[offset + i]
  {
    s[Min(offset, |s|)..Min(offset + limit, |s|)]
  }

  /** Called without arguments, `paginate` fetches the first 20 rows. */
  lemma DefaultWindow()
    ensures Paginate(DefaultPage, DefaultLimit) == Window(20, 0)
  {
  }

  /** The pages of one limit tile the rows: every row position lies on exactly one page. */
  lemma PagesPartitionRows(k: nat, limit: int)
    ensures OnPage(k, k / Paginate(1, limit).limit + 1, limit)
    ensures forall p :: p >= 1 && OnPage(k, p, limit) ==> p == k / Paginate(1, limit).limit + 1
  {
    var l := Paginate(1, limit).limit;
    RowPage(k, l, k / l + 1);
    forall p | p >= 1 && OnPage(k, p, limit)
      ensures p == k / l + 1
    {
      RowPage(k, l, p);
    }
  }

  /** Row `k` of a result is among the rows its page fetches. */
  lemma RowOnItsPage<T>(s: seq<T>, k: nat, limit: int)
    requires k < |s|
    ensures var w := Paginate(k / Paginate(1, limit).limit + 1, limit);
      s[k] in Slice(s, w.offset, w.limit)
  {
    var w := Paginate(k / Paginate(1, limit).limit + 1, limit);
    PagesPartitionRows(k, limit);
    assert Slice(s, w.offset, w.limit)[k - w.offset] == s[k];
  }

  /** Some page fetches any given row of a result. */
  lemma PageWith<T>(s: seq<T>, x: T, limit: int) returns (p: int)
    requires x in s
    ensures p >= 1 && x in Slice(s, Paginate(p, limit).offset, Paginate(p, limit).limit)
  {
    var k :| 0 <= k < |s| && s[k] == x;
    var l := Paginate(1, limit).limit;
    var page: nat := k / l + 1;
    p := page;
    RowOnItsPage(s, k, limit);
  }

  /** Arithmetic core of `PagesPartitionRows`. */
  lemma RowPage(k: nat, l: int, p: int)
    requires l >= 1 && p >= 1
    ensures (p - 1) * l <= k < (p - 1) * l + l <==> p == k / l + 1
  {
    var q := k / l;
    assert k == q * l + k % l;
    if p - 1 < q {
      LemmaMulLe(p, q, l);
      assert (p - 1) * l + l == p * l;
    } else if p - 1 > q {
      LemmaMulLe(q + 1, p - 1, l);
      assert q * l + l == (q + 1) * l;
    }
  }

  /** Row position `k` is among the rows page `p` fetches. */
  ghost predicate OnPage(k: nat, p: int, limit: int) {
    var w := Paginate(p, limit);
    w.offset <= k < w.offset + w.limit
  }

  lemma LemmaMulLe(a: int, b: int, l: nat)
    requires a <= b
    ensures a * l <= b * l
  {
  }

  /** `Math.ceil(count / limit)` in JavaScript's floating point: a division by a
      zero limit is `NaN` for no rows and `Infinity` otherwise, and a negative
      limit gives a non-positive page count. */
  function CeilPages(count: nat, limit: int): (r: JsNumber)
    ensures limit == 0 ==> (r == NaN <==> count == 0) && (r == PosInfinity <==> count > 0)
    ensures limit > 0 ==> r.Finite? && (r.n - 1) * limit < count <= r.n * limit
    ensures limit < 0 ==> r.Finite? && r.n <= 0
  {
    if limit == 0 then (if count == 0 then NaN else PosInfinity)
    else if limit > 0 then
      var q := (count + limit - 1) / limit;
      assert q * limit <= count + limit - 1 < q * limit + limit;
      Finite(q)
    else Finite(-(count / -limit))
  }

  /** The page count of the limit the rows are fetched with. */
  function PageCount(count: nat, limit: int): (r: nat)
    ensures CeilPages(count, Paginate(1, limit).limit) == Finite(r)
  {
    var l := Paginate(1, limit).limit;
    var q := (count + l - 1) / l;
    q
  }

  /** With the fetch limit, the reported pages are exactly the non-empty ones:
      every row is on a page within the count, and every page within the count
      starts at a row that exists. */
  lemma PageCountCoversRows(count: nat, limit: int)
    ensures forall k :: 0 <= k < count ==> k / Paginate(1, limit).limit + 1 <= PageCount(count, limit)
    ensures forall p :: 1 <= p <= PageCount(count, limit) ==> Paginate(p, limit).offset < count
  {
    forall k | 0 <= k < count
      ensures k / Paginate(1, limit).limit + 1 <= PageCount(count, limit)
    {
      RowWithinCount(count, limit, k);
    }
    forall p | 1 <= p <= PageCount(count, limit)
      ensures Paginate(p, limit).offset < count
    {
      PageWithinCount(count, limit, p);
    }
  }

  lemma RowWithinCount(count: nat, limit: int, k: nat)
    requires k < count
    ensures k / Paginate(1, limit).limit + 1 <= PageCount(count, limit)
  {
    var l := Paginate(1, limit).limit;
    var n := PageCount(count, limit);
    RowPage(k, l, k / l + 1);
    if k / l + 1 > n {
      LemmaMulLe(n, k / l, l);
    }
  }

  lemma PageWithinCount(count: nat, limit: int, p: int)
    requires 1 <= p <= PageCount(count, limit)
    ensures Paginate(p, limit).offset < count
  {
    var l := Paginate(1, limit).limit;
    var n := PageCount(count, limit);
    LemmaMulLe(p, n, l);
    assert (p - 1) * l == p * l - l;
  }
}
