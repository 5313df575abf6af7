/** Pages of the SBOM listing, dealt out to concurrent workers. */
module Paging {
  /** `u32::div_ceil`. */
  function DivCeil(n: nat, d: nat): nat
    requires d > 0
  {
    n / d + (if n % d > 0 then 1 else 0)
  }

  function Offsets(total: nat, batchSize: nat): seq<nat>
    requires batchSize > 0
  {
    seq(DivCeil(total, batchSize), i requires 0 <= i => i * batchSize)
  }

  /** How many records the page at `offset` holds. */
  function Window(total: nat, batchSize: nat, offset: nat): nat {
    var remaining := if offset < total then total - offset else 0;
    if remaining < batchSize then remaining else batchSize
  }

  /** Whether the page at `offset` holds record number `x`. */
  function Holds(total: nat, batchSize: nat, x: nat, offset: nat): nat {
    if offset <= x < offset + Window(total, batchSize, offset) then 1 else 0
  }

  /** The pages of each worker when page `i` goes to worker `i % concurrency`. */
  ghost function Dealt(offsets: seq<nat>, concurrency: nat): (pages: seq<seq<nat>>)
    requires concurrency > 0
    ensures |pages| == concurrency
  {
    if offsets == [] then seq(concurrency, _ => [])
    else
      var rest := Dealt(offsets[..|offsets| - 1], concurrency);
      var worker := (|offsets| - 1) % concurrency;
      rest[worker := rest[worker] + [offsets[|offsets| - 1]]]
  }

  method Distribute(offsets: seq<nat>, concurrency: nat) returns (workerPages: seq<seq<nat>>)
    requires concurrency > 0
    ensures workerPages == Dealt(offsets, concurrency)
  {
    workerPages := seq(concurrency, _ => []);
    for i := 0 to |offsets|
      invariant workerPages == Dealt(offsets[..i], concurrency)
    {
      var worker := i % concurrency;
      assert offsets[..i + 1][..i] == offsets[..i];
      workerPages := workerPages[worker := workerPages[worker] + [offsets[i]]];
    }
    assert offsets[..|offsets|] == offsets;
  }

  ghost function Weigh(f: nat -> nat, pages: seq<nat>): nat {
    if pages == [] then 0 else Weigh(f, pages[..|pages| - 1]) + f(pages[|pages| - 1])
  }

  ghost function WeighAll(f: nat -> nat, workers: seq<seq<nat>>): nat {
    if workers == [] then 0 else WeighAll(f, workers[..|workers| - 1]) + Weigh(f, workers[|workers| - 1])
  }

  // ---------------------------------------------------------------------------------------------
  // Dealing conserves every measure of the pages.

  lemma {:induction false} NothingDealt(f: nat -> nat, workers: seq<seq<nat>>)
    requires forall w :: 0 <= w < |workers| ==> workers[w] == []
    ensures WeighAll(f, workers) == 0
  {
    if workers != [] {
      NothingDealt(f, workers[..|workers| - 1]);
    }
  }

  lemma {:induction false} OnePageMore(f: nat -> nat, workers: seq<seq<nat>>, w: nat, page: nat)
    requires w < |workers|
    ensures WeighAll(f, workers[w := workers[w] + [page]]) == WeighAll(f, workers) + f(page)
  {
    var more := workers[w := workers[w] + [page]];
    var last := |workers| - 1;
    if w == last {
      assert more[..last] == workers[..last];
      assert (workers[w] + [page])[..|workers[w]|] == workers[w];
    } else {
      OnePageMore(f, workers[..last], w, page);
      assert more[..last] == workers[..last][w := workers[w] + [page]];
    }
  }

  /** Whatever is measured per page, the workers together have exactly what there is. */
  lemma {:induction false} DealingConserves(f: nat -> nat, offsets: seq<nat>, concurrency: nat)
    requires concurrency > 0
    ensures WeighAll(f, Dealt(offsets, concurrency)) == Weigh(f, offsets)
  {
    if offsets == [] {
      NothingDealt(f, Dealt(offsets, concurrency));
    } else {
      var last := |offsets| - 1;
      DealingConserves(f, offsets[..last], concurrency);
      OnePageMore(f, Dealt(offsets[..last], concurrency), last % concurrency, offsets[last]);
    }
  }

  // ---------------------------------------------------------------------------------------------
  // The offsets cut the listing into windows.

  lemma PageBounds(total: nat, batchSize: nat, i: nat)
    requires batchSize > 0 && i < DivCeil(total, batchSize)
    ensures i * batchSize < total
    ensures i + 1 < DivCeil(total, batchSize) ==> (i + 1) * batchSize < total
    ensures i + 1 == DivCeil(total, batchSize) ==> total <= (i + 1) * batchSize
  {
    var q, r := total / batchSize, total % batchSize;
    assert total == q * batchSize + r;
    assert i <= q - (if r > 0 then 0 else 1);
    Scaled(i, q, batchSize);
    Scaled(i + 1, q, batchSize);
  }

  lemma Scaled(a: nat, b: nat, k: nat)
    ensures a <= b ==> a * k <= b * k
    ensures a < b ==> a * k + k <= b * k
  {
    if a < b {
      assert b * k == (a + 1) * k + (b - a - 1) * k;
    }
  }

  /** No offset overflows an unsigned 32-bit integer, and pages come in order. */
  lemma OffsetsFit(total: nat, batchSize: nat, i: nat)
    requires batchSize > 0 && total < 0x1_0000_0000 && i < |Offsets(total, batchSize)|
    ensures Offsets(total, batchSize)[i] == i * batchSize < total < 0x1_0000_0000
  {
    PageBounds(total, batchSize, i);
  }

  /** How many records the first `n` pages hold. */
  function Covered(total: nat, batchSize: nat, n: nat): nat
    requires batchSize > 0
  {
    if n == DivCeil(total, batchSize) then total else n * batchSize
  }

  lemma WindowOfPage(total: nat, batchSize: nat, n: nat)
    requires batchSize > 0 && 0 < n <= DivCeil(total, batchSize)
    ensures Covered(total, batchSize, n)
         == Covered(total, batchSize, n - 1) + Window(total, batchSize, (n - 1) * batchSize)
  {
    PageBounds(total, batchSize, n - 1);
    assert n * batchSize == (n - 1) * batchSize + batchSize;
  }

  lemma NoPages(total: nat, batchSize: nat)
    requires batchSize > 0
    ensures Covered(total, batchSize, 0) == 0
  {
    if DivCeil(total, batchSize) == 0 {
      assert total == total / batchSize * batchSize + total % batchSize;
    }
  }

  lemma {:induction false} WindowsUpTo(total: nat, batchSize: nat, n: nat)
    requires batchSize > 0 && n <= DivCeil(total, batchSize)
    ensures var f := offset => Window(total, batchSize, offset);
      Weigh(f, Offsets(total, batchSize)[..n]) == Covered(total, batchSize, n)
  {
    var all := Offsets(total, batchSize);
    if n > 0 {
      WindowsUpTo(total, batchSize, n - 1);
      WindowOfPage(total, batchSize, n);
      assert all[..n][..n - 1] == all[..n - 1];
    } else {
      NoPages(total, batchSize);
    }
  }

  lemma RecordOnPage(total: nat, batchSize: nat, x: nat, n: nat)
    requires batchSize > 0 && 0 < n <= DivCeil(total, batchSize)
    ensures Holds(total, batchSize, x, (n - 1) * batchSize)
         == (if x < n * batchSize && x < total then 1 else 0)
            - (if x < (n - 1) * batchSize && x < total then 1 else 0)
  {
    PageBounds(total, batchSize, n - 1);
    assert n * batchSize == (n - 1) * batchSize + batchSize;
  }

  lemma {:induction false} RecordsUpTo(total: nat, batchSize: nat, x: nat, n: nat)
    requires batchSize > 0 && n <= DivCeil(total, batchSize)
    ensures var f := offset => Holds(total, batchSize, x, offset);
      Weigh(f, Offsets(total, batchSize)[..n]) == if x < n * batchSize && x < total then 1 else 0
  {
    var f := offset => Holds(total, batchSize, x, offset);
    var all := Offsets(total, batchSize);
    if n > 0 {
      RecordsUpTo(total, batchSize, x, n - 1);
      assert all[..n][..n - 1] == all[..n - 1];
      RecordOnPage(total, batchSize, x, n);
    }
  }

  // ---------------------------------------------------------------------------------------------
  // Main results.

  /** Every record below the total is requested by exactly one worker, on exactly one page. */
  lemma EveryRecordRequestedOnce(total: nat, batchSize: nat, concurrency: nat, x: nat)
    requires batchSize > 0 && concurrency > 0
    ensures WeighAll(offset => Holds(total, batchSize, x, offset), Dealt(Offsets(total, batchSize), concurrency))
         == if x < total then 1 else 0
  {
    var all := Offsets(total, batchSize);
    DealingConserves(offset => Holds(total, batchSize, x, offset), all, concurrency);
    RecordsUpTo(total, batchSize, x, |all|);
    assert all[..|all|] == all;
    LastPage(total, batchSize);
  }

  lemma LastPage(total: nat, batchSize: nat)
    requires batchSize > 0
    ensures total <= DivCeil(total, batchSize) * batchSize
  {
    assert total == total / batchSize * batchSize + total % batchSize;
    assert (total / batchSize + 1) * batchSize == total / batchSize * batchSize + batchSize;
  }

  /** The progress totals of the workers add up to the number of records. */
  lemma WorkerCountsAddUp(total: nat, batchSize: nat, concurrency: nat)
    requires batchSize > 0 && concurrency > 0
    ensures WeighAll(offset => Window(total, batchSize, offset), Dealt(Offsets(total, batchSize), concurrency))
         == total
  {
    var all := Offsets(total, batchSize);
    DealingConserves(offset => Window(total, batchSize, offset), all, concurrency);
    WindowsUpTo(total, batchSize, |all|);
    assert all[..|all|] == all;
  }

  /** How many of the first `n` pages go to worker `w`. */
  function Share(n: nat, concurrency: nat, w: nat): nat
    requires w < concurrency
  {
    (n + concurrency - 1 - w) / concurrency
  }

  /** The `j`-th page of worker `w`. */
  function Place(j: nat, concurrency: nat, w: nat): nat {
    j * concurrency + w
  }

  predicate HasEveryNth(mine: seq<nat>, offsets: seq<nat>, concurrency: nat, w: nat) {
    forall j :: 0 <= j < |mine| ==>
      Place(j, concurrency, w) < |offsets| && mine[j] == offsets[Place(j, concurrency, w)]
  }

  /** Worker `w` gets the pages `w`, `w + concurrency`, ... of the listing, in that order. */
  lemma {:induction false} RoundRobin(offsets: seq<nat>, concurrency: nat, w: nat)
    requires w < concurrency
    ensures |Dealt(offsets, concurrency)[w]| == Share(|offsets|, concurrency, w)
    ensures HasEveryNth(Dealt(offsets, concurrency)[w], offsets, concurrency, w)
  {
    var n := |offsets|;
    if n == 0 {
      Quotient(0, concurrency, concurrency - 1 - w);
    } else {
      RoundRobin(offsets[..n - 1], concurrency, w);
      NextShare(n, concurrency, w);
      LongerList(Dealt(offsets[..n - 1], concurrency)[w], offsets, concurrency, w);
    }
  }

  lemma LongerList(mine: seq<nat>, offsets: seq<nat>, concurrency: nat, w: nat)
    requires offsets != [] && HasEveryNth(mine, offsets[..|offsets| - 1], concurrency, w)
    ensures HasEveryNth(mine, offsets, concurrency, w)
    ensures Place(|mine|, concurrency, w) == |offsets| - 1
        ==> HasEveryNth(mine + [offsets[|offsets| - 1]], offsets, concurrency, w)
  {
  }

  /** The share of worker `w` grows exactly when the page dealt is its own. */
  lemma NextShare(n: nat, c: nat, w: nat)
    requires n > 0 && w < c
    ensures (n - 1) % c == w ==> Share(n, c, w) == Share(n - 1, c, w) + 1 && Place(Share(n - 1, c, w), c, w) == n - 1
    ensures (n - 1) % c != w ==> Share(n, c, w) == Share(n - 1, c, w)
  {
    var q, r := (n - 1) / c, (n - 1) % c;
    assert n - 1 == q * c + r;
    assert (q + 1) * c == q * c + c;
    if r < w {
      Quotient(q, c, r + c - w - 1);
      Quotient(q, c, r + c - w);
    } else if r == w {
      Quotient(q, c, c - 1);
      Quotient(q + 1, c, 0);
    } else {
      Quotient(q + 1, c, r - w - 1);
      Quotient(q + 1, c, r - w);
    }
  }

  lemma Quotient(q: nat, c: nat, r: nat)
    requires r < c
    ensures (q * c + r) / c == q
  {
    var x := q * c + r;
    assert x == (x / c) * c + x % c;
    Scaled(x / c, q, c);
    Scaled(q, x / c, c);
  }

  lemma SharesDiffer(n: nat, c: nat, v: nat, w: nat)
    requires v < c && w < c
    ensures Share(n, c, v) <= Share(n, c, w) + 1
  {
    var a, b := n + c - 1 - v, n + c - 1 - w;
    assert a == (a / c) * c + a % c;
    assert b == (b / c) * c + b % c;
    assert (b / c + 2) * c == (b / c) * c + c + c;
    Scaled(b / c + 2, a / c, c);
  }

  /** No worker has more than one page more than another. */
  lemma LoadsAreBalanced(offsets: seq<nat>, concurrency: nat, v: nat, w: nat)
    requires v < concurrency && w < concurrency
    ensures |Dealt(offsets, concurrency)[v]| <= |Dealt(offsets, concurrency)[w]| + 1
  {
    RoundRobin(offsets, concurrency, v);
    RoundRobin(offsets, concurrency, w);
    SharesDiffer(|offsets|, concurrency, v, w);
  }
}
