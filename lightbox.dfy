/**
 * The viewer state of the gallery page (components/client-content.tsx): a fixed
 * catalog, and the modal state `{isOpen, currentIndex}` that the click, close and
 * navigate handlers replace.
 */
module Lightbox {
  import opened ServerCatalog

  datatype Direction = Prev | Next

  /** The remainder is determined by any decomposition `a == q * n + r` with `0 <= r < n`. */
  lemma ModUnique(a: int, n: int, q: int, r: int)
    requires n > 0 && a == q * n + r && 0 <= r < n
    ensures a % n == r
  {
    var q' := a / n;
    var r' := a % n;
    assert a == q' * n + r';
    assert (q - q') * n == r' - r;
    if q - q' >= 1 {
      MulAtLeast(q - q', n);
    } else if q' - q >= 1 {
      MulAtLeast(q' - q, n);
    }
  }

  lemma MulAtLeast(d: int, n: int)
    requires d >= 1 && n > 0
    ensures d * n >= n
  {
  }

  /**
   * JavaScript's `a % n` (truncating division): the remainder has the sign of `a`,
   * is smaller than `n` in magnitude, and differs from `a` by a multiple of `n`.
   */
  function JsRemainder(a: int, n: int): (r: int)
    requires n > 0
    ensures -n < r < n
    ensures a >= 0 ==> r >= 0
    ensures a <= 0 ==> r <= 0
    ensures (a - r) % n == 0
  {
    if a >= 0 then
      ModUnique(a - a % n, n, a / n, 0);
      a % n
    else
      ModUnique(a + (-a) % n, n, -((-a) / n), 0);
      -((-a) % n)
  }

  /** On a non-negative dividend JavaScript's `%` is the Euclidean remainder. */
  lemma JsRemainderOfNonNegative(a: int, n: int)
    requires n > 0
    ensures a >= 0 ==> JsRemainder(a, n) == a % n
  {
    if a >= 0 {
      var r := JsRemainder(a, n);
      var q := (a - r) / n;
      assert a - r == q * n + (a - r) % n;
      ModUnique(a, n, q, r);
    }
  }

  /** Truncation is symmetric: negating the dividend negates the remainder. */
  lemma JsRemainderOfNegation(a: int, n: int)
    requires n > 0
    ensures JsRemainder(-a, n) == -JsRemainder(a, n)
  {
  }

  lemma ModShift(a: int, n: int)
    requires n > 0
    ensures (a + n) % n == a % n
  {
    ModUnique(a + n, n, a / n + 1, a % n);
  }

  /** The two remainders `handleNavigate` computes, for an index in [0, n). */
  lemma StepRemainders(index: int, n: int)
    requires n > 0
    ensures 0 <= index < n ==> (index + 1) % n == if index == n - 1 then 0 else index + 1
    ensures 0 <= index < n ==> (index - 1 + n) % n == if index == 0 then n - 1 else index - 1
  {
    if 0 <= index < n {
      if index + 1 < n {
        ModUnique(index + 1, n, 0, index + 1);
      } else {
        ModUnique(index + 1, n, 1, 0);
      }
      if index == 0 {
        ModUnique(index - 1 + n, n, 0, n - 1);
      } else {
        ModUnique(index - 1 + n, n, 1, index - 1);
      }
    }
  }

  /**
   * The index `handleNavigate(direction)` moves to in a catalog of `n` assets:
   * `(index + 1) % n` for next, `(index - 1 + n) % n` for prev.
   */
  function NavigateIndex(index: int, n: int, direction: Direction): (r: int)
    requires n > 0
    ensures 0 <= index < n ==> 0 <= r < n
    ensures 0 <= index < n && direction == Next ==> r == if index == n - 1 then 0 else index + 1
    ensures 0 <= index < n && direction == Prev ==> r == if index == 0 then n - 1 else index - 1
  {
    StepRemainders(index, n);
    JsRemainderOfNonNegative(index + 1, n);
    JsRemainderOfNonNegative(index - 1 + n, n);
    if direction == Next then JsRemainder(index + 1, n) else JsRemainder(index - 1 + n, n)
  }

  function Opposite(direction: Direction): Direction
  {
    if direction == Next then Prev else Next
  }

  /** Next then prev, and prev then next, each return to the index they started from. */
  lemma NavigateBackReturns(index: int, n: int, direction: Direction)
    requires 0 <= index < n
    ensures NavigateIndex(NavigateIndex(index, n, direction), n, Opposite(direction)) == index
  {
  }

  /** The index reached from `index` by the navigations `moves`, in order. */
  function NavigateAll(index: int, n: int, moves: seq<Direction>): int
    requires n > 0
    decreases |moves|
  {
    if moves == [] then index else NavigateAll(NavigateIndex(index, n, moves[0]), n, moves[1..])
  }

  /** Any sequence of navigations from a valid index stays in [0, n). */
  lemma {:induction false} NavigateAllInRange(index: int, n: int, moves: seq<Direction>)
    requires 0 <= index < n
    ensures 0 <= NavigateAll(index, n, moves) < n
    decreases |moves|
  {
    if moves != [] {
      NavigateAllInRange(NavigateIndex(index, n, moves[0]), n, moves[1..]);
    }
  }

  /** `k` presses of next from `index` land on `(index + k) mod n`. */
  lemma {:induction false} RepeatedNext(index: int, n: int, k: nat)
    requires 0 <= index < n
    ensures NavigateAll(index, n, seq(k, _ => Next)) == (index + k) % n
    decreases k
  {
    if k > 0 {
      var moves := seq(k, _ => Next);
      assert moves[0] == Next && moves[1..] == seq(k - 1, _ => Next);
      var next := NavigateIndex(index, n, Next);
      RepeatedNext(next, n, k - 1);
      if index == n - 1 {
        assert next == 0 && index + k == (k - 1) + n;
        ModShift(k - 1, n);
      }
    }
  }

  /** Cyclic closure: pressing next `n` times returns to the starting index. */
  lemma NextCycleCloses(index: int, n: int)
    requires 0 <= index < n
    ensures NavigateAll(index, n, seq(n, _ => Next)) == index
  {
    RepeatedNext(index, n, n);
    ModShift(index, n);
    ModUnique(index, n, 0, index);
  }

  /** The `src` passed to the modal: the current asset's path, or "" when there is none. */
  function ModalSrc(assets: seq<Asset>, index: int): (src: string)
    ensures 0 <= index < |assets| ==> src == assets[index].path
    ensures !(0 <= index < |assets|) ==> src == ""
  {
    if 0 <= index < |assets| && assets[index].path != "" then assets[index].path else ""
  }

  /** The `type` passed to the modal: the current asset's kind, or image when there is none. */
  function ModalType(assets: seq<Asset>, index: int): (kind: MediaKind)
    ensures 0 <= index < |assets| ==> kind == assets[index].kind
    ensures !(0 <= index < |assets|) ==> kind == Image
  {
    if 0 <= index < |assets| then assets[index].kind else Image
  }

  /** The gallery's modal state over a catalog that never changes. */
  class ClientContent {
    const assets: seq<Asset>
    var isOpen: bool
    var currentIndex: int

    /**
     * The index is always a position of the catalog, except that an empty catalog
     * keeps the initial 0; the modal is open only on a non-empty catalog.
     */
    ghost predicate Valid()
      reads this
    {
      0 <= currentIndex && (currentIndex < |assets| || currentIndex == 0) &&
      (isOpen ==> currentIndex < |assets|)
    }

    /** The initial state: closed, at index 0. */
    constructor (initialAssets: seq<Asset>)
      ensures Valid()
      ensures assets == initialAssets && !isOpen && currentIndex == 0
    {
      assets := initialAssets;
      isOpen := false;
      currentIndex := 0;
    }

    /** `handleItemClick(index)`, called by the tile at `index`. */
    method HandleItemClick(index: int)
      requires Valid()
      requires 0 <= index < |assets|
      modifies this
      ensures Valid()
      ensures isOpen && currentIndex == index
    {
      isOpen, currentIndex := true, index;
    }

    /** `handleCloseModal()`: closes and keeps the index, so reopening resumes there. */
    method HandleCloseModal()
      requires Valid()
      modifies this
      ensures Valid()
      ensures !isOpen && currentIndex == old(currentIndex)
    {
      isOpen := false;
    }

    /**
     * `handleNavigate(direction)`, reachable from the modal's buttons, which exist
     * only while the modal is open, hence only over a non-empty catalog.
     */
    method HandleNavigate(direction: Direction)
      requires Valid()
      requires |assets| > 0
      modifies this
      ensures Valid()
      ensures isOpen == old(isOpen)
      ensures currentIndex == NavigateIndex(old(currentIndex), |assets|, direction)
      ensures 0 <= currentIndex < |assets|
    {
      currentIndex := NavigateIndex(currentIndex, |assets|, direction);
    }
  }

  /** In a valid state over a non-empty catalog, the modal shows the current asset, never the fallback. */
  lemma ValidStateShowsAsset(v: ClientContent)
    requires v.Valid() && |v.assets| > 0
    ensures ModalSrc(v.assets, v.currentIndex) == v.assets[v.currentIndex].path
    ensures ModalType(v.assets, v.currentIndex) == v.assets[v.currentIndex].kind
  {
  }

  /** Over an empty catalog the modal gets `src = ""` and `type = "image"`. */
  lemma EmptyCatalogFallsBack(index: int)
    ensures ModalSrc([], index) == "" && ModalType([], index) == Image
  {
  }

  /** A session over three assets: open at 0, prev wraps to 2, next twice reaches 1. */
  method WrapAroundSession(a0: Asset, a1: Asset, a2: Asset)
  {
    var page := new ClientContent([a0, a1, a2]);
    page.HandleItemClick(0);
    page.HandleNavigate(Prev);
    assert page.currentIndex == 2;
    page.HandleNavigate(Next);
    page.HandleNavigate(Next);
    assert page.currentIndex == 1 && page.isOpen;
    page.HandleCloseModal();
    assert !page.isOpen && page.currentIndex == 1;
    assert page.assets == [a0, a1, a2];
  }
}
