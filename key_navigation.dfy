// The keyboard intents of the tab list and the index each one selects.

module KeyNavigation {
  import opened Options

  /** The key codes the handler distinguishes; every other key is `Other`. */
  datatype Key = Left | Right | Home | End | Other

  /**
   * The index after a key press from index i with n tabs, or None when the
   * handler returns early. No bounds are checked: Left from 0 and End always
   * give n - 1, and Right from any index other than n - 1 adds one.
   */
  function NextIndex(key: Key, i: int, n: nat): Option<int> {
    match key
    case Left => Some(if i == 0 then n - 1 else i - 1)
    case Right => Some(if i == n - 1 then 0 else i + 1)
    case Home => Some(0)
    case End => Some(n - 1)
    case Other => None
  }

  /** Only the arrow keys suppress the browser's default action. */
  predicate PreventsDefault(key: Key) {
    key == Left || key == Right
  }

  /** From a valid index, every recognised key lands on a valid index; only `Other` is ignored. */
  lemma NextIndexInRange(key: Key, i: int, n: nat)
    requires 0 <= i < n
    ensures NextIndex(key, i, n).None? <==> key == Other
    ensures key != Other ==> 0 <= NextIndex(key, i, n).value < n
  {
  }

  /** The arrows are moves modulo the tab count; Home and End ignore the prior index. */
  lemma ArrowsWrapModulo(i: int, n: nat)
    requires 0 <= i < n
    ensures NextIndex(Right, i, n) == Some((i + 1) % n)
    ensures NextIndex(Left, i, n) == Some((i - 1) % n)
    ensures NextIndex(Home, i, n) == Some(0) && NextIndex(End, i, n) == Some(n - 1)
  {
    if i == n - 1 {
      ModuloOf(i + 1, n, 1);
    } else {
      ModuloOf(i + 1, n, 0);
    }
    if i == 0 {
      ModuloOf(i - 1, n, -1);
    } else {
      ModuloOf(i - 1, n, 0);
    }
  }

  /** x % n for an x at most one period away from [0, n). */
  lemma ModuloOf(x: int, n: nat, q: int)
    requires n > 0 && -1 <= q <= 1 && 0 <= x - q * n < n
    ensures x % n == x - q * n
  {
  }

  /** Left undoes Right and Right undoes Left on a valid index. */
  lemma ArrowsAreInverse(i: int, n: nat)
    requires 0 <= i < n
    ensures NextIndex(Left, NextIndex(Right, i, n).value, n) == Some(i)
    ensures NextIndex(Right, NextIndex(Left, i, n).value, n) == Some(i)
  {
  }
}
