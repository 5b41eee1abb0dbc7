/** Edits of a sequence at one position, its neighbours in a ring, and where a text occurs in another. */
module Sequences {
  function InsertAt<T>(s: seq<T>, k: nat, x: T): seq<T>
    requires k <= |s|
  {
    s[..k] + [x] + s[k..]
  }

  function Without<T>(s: seq<T>, k: nat): seq<T>
    requires k < |s|
  {
    s[..k] + s[k + 1..]
  }

  function Rotated<T>(s: seq<T>, k: nat): seq<T>
    requires k <= |s|
  {
    s[k..] + s[..k]
  }

  // ---- in a ring ----

  /** The element before position `k`, which for the first one is the last. */
  function Before<T>(s: seq<T>, k: nat): T
    requires k <= |s| && s != []
  {
    if k == 0 then s[|s| - 1] else s[k - 1]
  }

  /** The element at position `k`, counting on from the first again after the last. */
  function After<T>(s: seq<T>, k: nat): T
    requires k <= |s| && s != []
  {
    if k == |s| then s[0] else s[k]
  }

  // ---- in a text ----

  /** The text `n` occurs in `h` at position `p`. */
  predicate OccursAt(h: string, n: string, p: int) {
    0 <= p && p + |n| <= |h| && h[p..p + |n|] == n
  }
}
