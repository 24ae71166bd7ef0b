/**
 The hit counter of main.go: `apiConfig.fileserverHits`, an `atomic.Int32`
 that the metrics middleware increments once per request, the metrics page
 reads and the reset endpoint sets to zero. Each atomic operation is one
 sequential step here.
 */
module Metrics {

  newtype int32 = x: int | -0x8000_0000 <= x < 0x8000_0000

  const Int32Modulus := 0x1_0000_0000

  /** `atomic.Int32.Add`: two's-complement addition, which wraps around past
      the largest and smallest int32. */
  function AddInt32(x: int32, delta: int32): (r: int32)
    ensures (r as int - (x as int + delta as int)) % Int32Modulus == 0
    ensures -0x8000_0000 <= x as int + delta as int < 0x8000_0000
            ==> r as int == x as int + delta as int
  {
    var sum := x as int + delta as int;
    if sum >= 0x8000_0000 then (sum - Int32Modulus) as int32
    else if sum < -0x8000_0000 then (sum + Int32Modulus) as int32
    else sum as int32
  }

  /** The count after `n` requests through the middleware, starting from
      `start`. */
  function HitsAfter(start: int32, n: nat): (r: int32)
    ensures (r as int - (start as int + n)) % Int32Modulus == 0
  {
    if n == 0 then start else AddInt32(HitsAfter(start, n - 1), 1)
  }

  /** From zero, `n` requests leave the count at `n`, whatever order they
      were served in, as long as `n` fits in an int32. */
  lemma {:induction false} HitsAfterFromZero(n: nat)
    requires n < 0x8000_0000
    ensures HitsAfter(0, n) as int == n
  {
    if n > 0 {
      HitsAfterFromZero(n - 1);
    }
  }

  /** One request past 2^31 - 1 hits, the count wraps around to the smallest
      int32. */
  lemma {:induction false} HitsWrapAround()
    ensures HitsAfter(0, 0x8000_0000) as int == -0x8000_0000
  {
    HitsAfterFromZero(0x7fff_ffff);
  }

  class ApiConfig {
    var fileserverHits: int32

    /** The zero value of `apiConfig`: no hits yet. */
    constructor ()
      ensures fileserverHits == 0
    {
      fileserverHits := 0;
    }

    /** One request through `middlewareMetricsInc(next)`: the count goes up
        by one, and only then does the wrapped handler run. The wrapped
        handler is given as the response it would produce for each value of
        the counter it could observe, so the contract records that it sees
        the incremented count. */
    method MiddlewareMetricsInc<Resp>(next: int32 -> Resp) returns (response: Resp)
      modifies this
      ensures fileserverHits == AddInt32(old(fileserverHits), 1)
      ensures fileserverHits == HitsAfter(old(fileserverHits), 1)
      ensures old(fileserverHits) < 0x7fff_ffff ==> fileserverHits as int == old(fileserverHits) as int + 1
      ensures response == next(fileserverHits)
    {
      fileserverHits := AddInt32(fileserverHits, 1);
      response := next(fileserverHits);
    }

    /** `handlerMetrics`: the count shown on the admin page; nothing changes. */
    method HandlerMetrics() returns (hits: int32)
      ensures hits == fileserverHits
    {
      hits := fileserverHits;
    }

    /** `handlerReset`: the count becomes zero whatever it was. */
    method HandlerReset()
      modifies this
      ensures fileserverHits == 0
    {
      fileserverHits := 0;
    }
  }
}
