/** `BaseLimitOrderBook` of `limit_order_book/base/limit_order_book.py`: the
    instrument's name, the maximum price, and the log of matches with
    `execute`, `spread` and the selection made by `get_latest_matches`. The
    concrete books hold one of these as `base` (the part their Python classes
    inherit). */
module BaseBook {
  import opened Orders

  class BaseLimitOrderBook {
    const name: string
    const maxPrice: int
    var matches: seq<Trade>

    constructor (name: string, maxPrice: int)
      ensures this.name == name && this.maxPrice == maxPrice
      ensures matches == []
    {
      this.name := name;
      this.maxPrice := maxPrice;
      matches := [];
    }

    /** `execute`: the match is logged after every earlier one. */
    method Execute(m: Trade)
      modifies this
      ensures matches == old(matches) + [m]
    {
      matches := matches + [m];
    }
  }

  /** Python's normalisation of a slice start `s[start:]` for a sequence of
      length `len`: a negative start counts from the end, and the result is
      clamped to `0..len`. */
  function SliceStart(len: nat, start: int): (k: nat)
    ensures k <= len
  {
    if start < 0 then (if start + len < 0 then 0 else start + len)
    else if start > len then len
    else start
  }

  /** The selection `_matches[-n:]` made by `get_latest_matches(n)`. */
  function LatestMatches(matches: seq<Trade>, n: int): (r: seq<Trade>)
    ensures n >= 1 ==> |r| == (if n < |matches| then n else |matches|)
    ensures |r| <= |matches| && r == matches[|matches| - |r|..]
    ensures n == 0 ==> r == matches
    ensures n < 0 ==> |r| == (if -n < |matches| then |matches| + n else 0)
  {
    matches[SliceStart(|matches|, -n)..]
  }

  /** `spread`: best ask minus best bid. */
  function Spread(bestAsk: int, bestBid: int): int
  {
    bestAsk - bestBid
  }
}
