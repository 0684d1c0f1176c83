/** `scrollPage`: scroll the listing page to the bottom until its height stops changing,
    at most a fixed number of times. The browser is abstracted to the page height it
    reports: `height(0)` before the first scroll and `height(k)` after the k-th scroll
    (the randomised one-to-two-second wait between them is not modelled). */
module Scroll {

  /** Default number of scrolls, the `N=7` default argument. */
  const DefaultMaxScrolls := 7

  /** Returns how many times the page was scrolled to the bottom. The loop stops at the
      first scroll after which the height equals the height before it (equality only: a
      shrinking page does not stop it), and after `maxScrolls` scrolls otherwise. */
  method ScrollPage(height: nat -> int, maxScrolls: int) returns (scrolls: nat)
    ensures scrolls <= if maxScrolls > 0 then maxScrolls else 0
    ensures forall k :: 1 <= k < scrolls ==> height(k) != height(k - 1)
    ensures scrolls < maxScrolls ==> 1 <= scrolls && height(scrolls) == height(scrolls - 1)
  {
    var lastHeight := height(0);
    var n := 0;
    scrolls := 0;
    while n < maxScrolls
      invariant 0 <= n && scrolls == n
      invariant n <= if maxScrolls > 0 then maxScrolls else 0
      invariant lastHeight == height(n)
      invariant forall k :: 1 <= k <= n ==> height(k) != height(k - 1)
    {
      scrolls := scrolls + 1;
      var newHeight := height(n + 1);
      if newHeight == lastHeight {
        break;
      }
      lastHeight := newHeight;
      n := n + 1;
    }
  }
}
