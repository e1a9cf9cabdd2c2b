/** Shared vocabulary of both drafts: optional values, the typed errors that
    replace the HTTP exceptions, and the integer helpers the routers use
    (`max(0, ...)`, SQL `OFFSET ... LIMIT ...`). */
module Common {

  datatype Option<T> = None | Some(value: T)

  /** The HTTP errors raised by the routers and services, by kind. */
  datatype Error =
    | NotFound(detail: string)     // 404
    | BadRequest(detail: string)   // 400
    | Forbidden(detail: string)    // 403

  datatype Result<T> = Ok(value: T) | Err(error: Error)

  function Min(a: int, b: int): (m: int)
    ensures m <= a && m <= b
    ensures m == a || m == b
  {
    if a <= b then a else b
  }

  /** Python's `max(0, x)`: the least non-negative value not below `x`. */
  function Max0(x: int): (r: nat)
    ensures r >= x
    ensures r == 0 || r == x
  {
    if x < 0 then 0 else x
  }

  /** SQL `OFFSET skip LIMIT limit` over an already filtered and ordered result. */
  function Page<T>(s: seq<T>, skip: nat, limit: nat): (r: seq<T>)
    ensures |r| <= limit && |r| <= |s|
    ensures skip >= |s| ==> r == []
    ensures skip < |s| ==> |r| == Min(limit, |s| - skip)
    ensures forall k :: 0 <= k < |r| ==> skip + k < |s| && r[k] == s[skip + k]
  {
    if skip >= |s| then []
    else if skip + limit >= |s| then s[skip..]
    else s[skip..skip + limit]
  }
}
