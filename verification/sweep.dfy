/**
 Assembly of the unsigned sweep transaction (`DustSweeper::build_psbt`): every
 given output is spent by one input, the amounts are summed, a fixed fee is
 taken off, and the remainder goes to a single output paying the burn address.
 The panic on a total that does not exceed the fee is the `Err` case.
 */
module Sweep {
  import opened Types
  import opened Wrappers
  import DustFilter

  /** The fee, in satoshis, the sweep leaves to miners. */
  const Fee: nat := 500

  /** The input sequence number: below 0xFFFFFFFE, so it signals replace-by-fee. */
  const RbfSequence: nat := 0xFFFF_FFFD

  const TxVersion: int := 2

  const LockTimeZero: nat := 0

  /** HASH160 carried by the burn address 1BitcoinEaterAddressDontSendf59kuE. */
  const BurnPubkeyHash: seq<bv8> :=
    [0x75, 0x9d, 0x66, 0x77, 0x09, 0x1e, 0x97, 0x3b, 0x9e, 0x9d,
     0x99, 0xf1, 0x9c, 0x68, 0xfb, 0xf4, 0x3e, 0x3f, 0x05, 0xf9]

  /** The pay-to-pubkey-hash locking script of the burn address. */
  const BurnScript: seq<bv8> := [0x76, 0xa9, 0x14] + BurnPubkeyHash + [0x88, 0xac]

  /** Why no transaction was built: `build_psbt` panics in this case. */
  datatype BuildError = FeeNotCovered

  /**
   The summed satoshi amount of a list of outputs. No entry's amount exceeds
   it, and it is zero exactly when every entry is worth nothing.
   */
  function Total(utxos: seq<Utxo>): (r: nat)
    ensures forall i :: 0 <= i < |utxos| ==> utxos[i].amount <= r
    ensures r == 0 <==> forall i :: 0 <= i < |utxos| ==> utxos[i].amount == 0
    decreases |utxos|
  {
    if |utxos| == 0 then 0 else Total(utxos[..|utxos| - 1]) + utxos[|utxos| - 1].amount
  }

  /** The outpoints of a list of outputs, in order. */
  function OutPoints(utxos: seq<Utxo>): (ops: seq<OutPoint>)
  {
    seq(|utxos|, i requires 0 <= i < |utxos| => OutPointOf(utxos[i]))
  }

  /** What a transaction spends, read back from its inputs. */
  function SpentOutPoints(tx: Transaction): (ops: seq<OutPoint>)
  {
    seq(|tx.input|, i requires 0 <= i < |tx.input| => tx.input[i].previousOutput)
  }

  /** The value a transaction pays out, summed over all its outputs. */
  function OutputValue(outs: seq<TxOut>): (r: nat)
    decreases |outs|
  {
    if |outs| == 0 then 0 else OutputValue(outs[..|outs| - 1]) + outs[|outs| - 1].value
  }

  /** No input carries an unlocking script or a witness: nothing is signed yet. */
  predicate Unsigned(tx: Transaction)
  {
    forall i :: 0 <= i < |tx.input| ==> tx.input[i].scriptSig == [] && tx.input[i].witnessStack == []
  }

  /** Every input opts in to replace-by-fee with the same non-final sequence number. */
  predicate SignalsRbf(tx: Transaction)
  {
    forall i :: 0 <= i < |tx.input| ==> tx.input[i].sequence == RbfSequence
  }

  /** The input spending one listed output: empty script, empty witness, replaceable sequence. */
  function SweepInput(u: Utxo): (txin: TxIn)
  {
    TxIn(OutPointOf(u), [], RbfSequence, [])
  }

  /**
   The unsigned sweep transaction for `utxos`, or `FeeNotCovered` when their
   total does not exceed the fee. The contract states what the transaction is
   as seen from outside: what it spends (read back from its inputs), that it is
   unsigned and replaceable, and that the value paid out plus the fee is
   exactly the value spent.
   */
  function BuildPsbt(utxos: seq<Utxo>): (r: Result<Transaction, BuildError>)
    ensures r.Ok? <==> Total(utxos) > Fee
    ensures |utxos| == 0 ==> r == Err(FeeNotCovered)
    ensures r.Ok? ==> SpentOutPoints(r.value) == OutPoints(utxos)
    ensures r.Ok? ==> Unsigned(r.value) && SignalsRbf(r.value)
    ensures r.Ok? ==> OutputValue(r.value.output) + Fee == Total(utxos)
    ensures r.Ok? ==> |r.value.output| == 1 && r.value.output[0].value >= 1
    ensures r.Ok? ==> r.value.output[0].scriptPubkey == BurnScript
    ensures r.Ok? ==> r.value.version == 2 && r.value.lockTime == 0
  {
    var inputs := seq(|utxos|, i requires 0 <= i < |utxos| => SweepInput(utxos[i]));
    var total := Total(utxos);
    if total <= Fee then
      Err(FeeNotCovered)
    else
      var outputs := [TxOut(total - Fee, BurnScript)];
      assert outputs[..0] == [];
      Ok(Transaction(TxVersion, LockTimeZero, inputs, outputs))
  }

  /** Summation distributes over concatenation. */
  lemma {:induction false} TotalAppend(a: seq<Utxo>, b: seq<Utxo>)
    ensures Total(a + b) == Total(a) + Total(b)
    decreases |b|
  {
    if |b| == 0 {
      assert a + b == a;
    } else {
      var b' := b[..|b| - 1];
      assert (a + b)[..|a + b| - 1] == a + b';
      TotalAppend(a, b');
    }
  }

  /** Taking entry j out of a list removes exactly its amount from the total. */
  lemma TotalRemove(b: seq<Utxo>, j: nat)
    requires j < |b|
    ensures Total(b) == Total(b[..j] + b[j + 1..]) + b[j].amount
  {
    var pre, upto, post := b[..j], b[..j + 1], b[j + 1..];
    assert upto + post == b;
    TotalAppend(upto, post);
    assert upto[..j] == pre;
    assert Total(upto) == Total(pre) + b[j].amount;
    TotalAppend(pre, post);
  }

  /** Taking entry j out of a list removes one occurrence of it from its multiset. */
  lemma MultisetRemove(b: seq<Utxo>, j: nat)
    requires j < |b|
    ensures multiset(b[..j] + b[j + 1..]) == multiset(b) - multiset{b[j]}
  {
    assert b == b[..j] + [b[j]] + b[j + 1..];
    assert multiset(b) == multiset(b[..j]) + multiset{b[j]} + multiset(b[j + 1..]);
  }

  /**
   The total depends only on which outputs are swept, not on their order:
   reordering the list does not change the swept value.
   */
  lemma {:induction false} TotalPermutation(a: seq<Utxo>, b: seq<Utxo>)
    requires multiset(a) == multiset(b)
    ensures Total(a) == Total(b)
    decreases |a|
  {
    if |a| > 0 {
      var n := |a| - 1;
      var x, a' := a[n], a[..n];
      assert a == a' + [x];
      assert x in multiset(b);
      var j :| 0 <= j < |b| && b[j] == x;
      MultisetRemove(b, j);
      MultisetRemove(a, n);
      assert a[..n] + a[n + 1..] == a';
      TotalPermutation(a', b[..j] + b[j + 1..]);
      TotalRemove(b, j);
    } else {
      assert |b| == |multiset(b)| == 0;
    }
  }

  /** Each listed output contributes no more than threshold - 1 satoshis, so the total is bounded by the count. */
  lemma {:induction false} TotalBelowThreshold(utxos: seq<Utxo>, threshold: nat)
    requires forall i :: 0 <= i < |utxos| ==> DustFilter.IsDust(utxos[i], threshold)
    ensures Total(utxos) + |utxos| <= |utxos| * threshold
    decreases |utxos|
  {
    if |utxos| > 0 {
      var n := |utxos| - 1;
      var init := utxos[..n];
      assert forall i :: 0 <= i < n ==> init[i] == utxos[i];
      TotalBelowThreshold(init, threshold);
      var rest, last := Total(init), utxos[n].amount;
      assert Total(utxos) == rest + last;
      assert rest + n <= n * threshold;
      assert last + 1 <= threshold;
      assert n * threshold + threshold == (n + 1) * threshold;
    }
  }

  /**
   Determinism: two lists give the same outcome exactly when both fall short
   of the fee, or both cover it with equal totals and spend the same outpoints
   in the same order. Nothing else about the entries (nor the threshold that
   selected them) affects the transaction.
   */
  lemma SameOutcome(a: seq<Utxo>, b: seq<Utxo>)
    ensures BuildPsbt(a) == BuildPsbt(b) <==>
      || (Total(a) <= Fee && Total(b) <= Fee)
      || (Total(a) > Fee && Total(b) > Fee && Total(a) == Total(b) && OutPoints(a) == OutPoints(b))
  {
    var ra, rb := BuildPsbt(a), BuildPsbt(b);
    if ra.Ok? && rb.Ok? {
      if ra == rb {
        assert OutPoints(a) == SpentOutPoints(ra.value) == OutPoints(b);
        assert Total(a) == OutputValue(ra.value.output) + Fee == Total(b);
      }
      if Total(a) == Total(b) && OutPoints(a) == OutPoints(b) {
        assert |a| == |OutPoints(a)| == |b|;
        forall i | 0 <= i < |a|
          ensures ra.value.input[i] == rb.value.input[i]
        {
          assert OutPoints(a)[i] == OutPoints(b)[i];
        }
        assert ra.value.input == rb.value.input;
        assert ra.value.output == rb.value.output;
      }
    }
  }

  /**
   Sweeping the dust of a listing: the transaction spends, in order, exactly
   the listing's entries below the threshold, and each of them once.
   */
  lemma SweepSpendsExactlyTheDust(listing: seq<Utxo>, threshold: nat)
    requires BuildPsbt(DustFilter.Dust(listing, threshold)).Ok?
    ensures var tx := BuildPsbt(DustFilter.Dust(listing, threshold)).value;
            var ps := DustFilter.DustPositions(listing, threshold);
            && |tx.input| == |ps|
            && (forall k :: 0 <= k < |ps| ==> tx.input[k].previousOutput == OutPointOf(listing[ps[k]]))
            && (forall j :: 0 <= j < |listing| ==> (j in ps <==> DustFilter.IsDust(listing[j], threshold)))
  {
    var dust := DustFilter.Dust(listing, threshold);
    var tx := BuildPsbt(dust).value;
    DustFilter.DustSelectsDustPositions(listing, threshold);
    assert |tx.input| == |SpentOutPoints(tx)| == |OutPoints(dust)|;
    forall k | 0 <= k < |tx.input|
      ensures tx.input[k].previousOutput == OutPointOf(dust[k])
    {
      assert SpentOutPoints(tx)[k] == OutPoints(dust)[k];
    }
  }

  /**
   A sweep of dust below `threshold` can only succeed when there is enough of
   it: at least two satoshis of threshold, and more than `Fee` satoshis of
   headroom across the swept entries. A threshold of 0 or 1 never sweeps.
   */
  lemma SweepNeedsEnoughDust(listing: seq<Utxo>, threshold: nat)
    requires BuildPsbt(DustFilter.Dust(listing, threshold)).Ok?
    ensures var n := |DustFilter.Dust(listing, threshold)|;
            threshold >= 2 && n * (threshold - 1) > Fee
  {
    var dust := DustFilter.Dust(listing, threshold);
    TotalBelowThreshold(dust, threshold);
    var n := |dust|;
    assert n * threshold == n * (threshold - 1) + n;
  }
}
