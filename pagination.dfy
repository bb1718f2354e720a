/** OFFSET/LIMIT as the two hierarchy reads pass them to PostgreSQL. */
module Pagination {
  import opened Common

  function Min(a: int, b: int): int { if a <= b then a else b }

  /** The OFFSET and LIMIT of one read. */
  datatype Window = Window(offset: int, limit: int)

  /** The JavaScript default parameters `page = 1`, `limit = 10`, `offset = (page - 1) * limit`,
      each applied when its argument is undefined. */
  function PageArgs(page: Option<int>, limit: Option<int>, offset: Option<int>): (w: Window)
    ensures page.None? && limit.None? && offset.None? ==> w == Window(0, 10)
    ensures limit.Some? ==> w.limit == limit.value
    ensures limit.None? ==> w.limit == 10
    ensures offset.Some? ==> w.offset == offset.value
    ensures offset.None? && page.Some? ==> w.offset == (page.value - 1) * w.limit
    ensures offset.None? && page.None? ==> w.offset == 0
  {
    var p := page.GetOr(1);
    var l := limit.GetOr(10);
    Window(offset.GetOr((p - 1) * l), l)
  }

  /** PostgreSQL refuses a negative OFFSET, then a negative LIMIT, before it reads any row. */
  function WindowError(w: Window): (e: Option<Error>)
    ensures e.None? <==> 0 <= w.offset && 0 <= w.limit
    ensures e.Some? ==> e.value.QueryFailed?
  {
    if w.offset < 0 then Some(QueryFailed("OFFSET must not be negative"))
    else if w.limit < 0 then Some(QueryFailed("LIMIT must not be negative"))
    else None
  }

  /** How many rows of its input the database pulls to answer the window: none at all for
      LIMIT 0, otherwise the skipped rows and the returned ones. */
  function Need(w: Window): (n: nat)
    requires WindowError(w).None?
    ensures w.limit == 0 ==> n == 0
    ensures w.limit > 0 ==> n == w.offset + w.limit
  {
    if w.limit == 0 then 0 else w.offset + w.limit
  }

  /** The rows a window selects: at most `limit` of them, those at positions `offset`,
      `offset + 1`, ... of the input. */
  function Slice<T>(rows: seq<T>, w: Window): (page: seq<T>)
    requires WindowError(w).None?
    ensures |page| <= w.limit
    ensures w.offset + w.limit <= |rows| ==> |page| == w.limit
    ensures w.offset + w.limit > |rows| ==> |page| == if w.offset < |rows| then |rows| - w.offset else 0
    ensures forall i | 0 <= i < |page| :: page[i] == rows[w.offset + i]
    ensures forall x | x in page :: x in rows
  {
    rows[Min(w.offset, |rows|)..Min(w.offset + w.limit, |rows|)]
  }

  /** Pulling only `Need(w)` rows of the input does not change the page. */
  lemma SliceNeedsOnlyPrefix<T>(rows: seq<T>, w: Window, n: nat)
    requires WindowError(w).None? && Need(w) <= n <= |rows|
    ensures Slice(rows[..n], w) == Slice(rows, w)
  {
  }
}
