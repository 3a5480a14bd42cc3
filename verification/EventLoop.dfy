/** One round of an executor's event loop: reaping completions and telling the kernel how far it came. */
module EventLoops {
  import opened Arithmetic

  /** The completions before the first one without a continuation; zero is the wake-up that ends the loop. */
  function Handled(completions: seq<nat>): (r: seq<nat>)
    ensures r <= completions && 0 !in r && (|r| < |completions| ==> completions[|r|] == 0)
  {
    if completions == [] || completions[0] == 0 then [] else [completions[0]] + Handled(completions[1..])
  }

  lemma {:induction false} HandledPrefix(completions: seq<nat>, n: nat)
    requires n <= |completions| && 0 !in completions[..n]
    ensures |Handled(completions)| >= n
    ensures n == |completions| ==> Handled(completions) == completions
    ensures n < |completions| && completions[n] == 0 ==> Handled(completions) == completions[..n]
  {
    if n > 0 {
      assert completions[0] in completions[..n];
      assert completions[1..][..n - 1] == completions[..n][1..];
      HandledPrefix(completions[1..], n - 1);
      assert completions == [completions[0]] + completions[1..];
    }
  }

  predicate WokenUp(completions: seq<nat>) {
    0 in completions
  }

  /** Resumes the continuations in order. The kernel is told of every full batch and of the rest; a wake-up that
      completes a batch leaves that batch untold. */
  method Reap(completions: seq<nat>, batchSize: nat)
      returns (resumed: seq<nat>, processed: nat, advanced: nat, submits: nat)
    ensures resumed == Handled(completions)
    ensures processed == |resumed| + if WokenUp(completions) then 1 else 0
    ensures var batch := if batchSize == 0 then 1 else batchSize;
            && advanced == (if WokenUp(completions) && processed % batch == 0 then processed - batch else processed)
            && submits == |resumed| / batch
  {
    var batch := if batchSize == 0 then 1 else batchSize;
    resumed, processed, advanced, submits := [], 0, 0, 0;
    var i := 0;
    ghost var woken := false;
    while i < |completions|
      invariant i <= |completions| && resumed == completions[..i] && 0 !in resumed
      invariant processed == i && advanced == submits * batch && Batches(i, batch, submits) && !woken
    {
      processed := processed + 1;
      NextBatch(i, batch, submits);
      if completions[i] == 0 {
        woken := true;
        break;
      }
      resumed := resumed + [completions[i]];
      if processed % batch == 0 {
        submits := submits + 1;
        MoreBatches(submits, batch);
        advanced := advanced + batch;
      }
      i := i + 1;
    }
    HandledPrefix(completions, i);
    if processed % batch != 0 {
      advanced := advanced + processed % batch;
    }
    Settled(i, batch, submits, processed);
  }

  /** `count` completions make `full` whole batches. */
  ghost predicate Batches(count: nat, batch: nat, full: nat)
    requires batch > 0
  {
    full == count / batch && full * batch + count % batch == count
  }

  lemma MoreBatches(n: nat, batch: nat)
    requires n > 0
    ensures n * batch == (n - 1) * batch + batch
  {
  }

  lemma NextBatch(count: nat, batch: nat, full: nat)
    requires batch > 0 && Batches(count, batch, full)
    ensures if (count + 1) % batch == 0 then Batches(count + 1, batch, full + 1) else Batches(count + 1, batch, full)
  {
    var r := count % batch;
    if r + 1 == batch {
      assert count + 1 == (full + 1) * batch + 0;
      DivUnique(count + 1, batch, full + 1, 0);
    } else {
      DivUnique(count + 1, batch, full, r + 1);
    }
  }

  lemma Settled(count: nat, batch: nat, full: nat, processed: nat)
    requires batch > 0 && Batches(count, batch, full) && (processed == count || processed == count + 1)
    ensures processed == count ==> full * batch + processed % batch == processed
    ensures processed == count + 1 && processed % batch != 0 ==> full * batch + processed % batch == processed
    ensures processed == count + 1 && processed % batch == 0 ==> full * batch == processed - batch
  {
    NextBatch(count, batch, full);
    MoreBatches(full + 1, batch);
  }
}
