/**
 Dust selection (`DustSweeper::get_dust_utxos`): once the node's unspent-output
 listing is in hand, keep every entry whose amount is strictly below the
 threshold, in listing order.
 */
module DustFilter {
  import opened Types

  /** An entry counts as dust when its amount in satoshis is strictly below the threshold. */
  predicate IsDust(u: Utxo, threshold: nat)
  {
    u.amount < threshold
  }

  /**
   The filter as a recursive definition over the listing, peeling off the last
   entry. Its contract is the membership half of the filter's meaning: nothing
   kept is at or above the threshold or foreign to the listing, and nothing
   below the threshold is dropped.
   */
  function Dust(listing: seq<Utxo>, threshold: nat): (dust: seq<Utxo>)
    ensures |dust| <= |listing|
    ensures forall i :: 0 <= i < |dust| ==> IsDust(dust[i], threshold) && dust[i] in listing
    ensures forall u :: u in listing && IsDust(u, threshold) ==> u in dust
    decreases |listing|
  {
    if |listing| == 0 then []
    else
      var init, last := listing[..|listing| - 1], listing[|listing| - 1];
      assert listing == init + [last];
      Dust(init, threshold) + (if IsDust(last, threshold) then [last] else [])
  }

  /** The filter as `get_dust_utxos` runs it: one pass over the listing, appending each dust entry. */
  method GetDustUtxos(listing: seq<Utxo>, threshold: nat) returns (dust: seq<Utxo>)
    ensures dust == Dust(listing, threshold)
  {
    dust := [];
    var i := 0;
    while i < |listing|
      invariant 0 <= i <= |listing|
      invariant dust == Dust(listing[..i], threshold)
    {
      assert listing[..i + 1][..i] == listing[..i];
      if IsDust(listing[i], threshold) {
        dust := dust + [listing[i]];
      }
      i := i + 1;
    }
    assert listing[..|listing|] == listing;
  }

  ghost predicate StrictlyIncreasing(ps: seq<nat>)
  {
    forall k, l :: 0 <= k < l < |ps| ==> ps[k] < ps[l]
  }

  /**
   `dust` picks the entries of `listing` at positions `ps`, in increasing
   position order, so it is an order-preserving subsequence of the listing.
   */
  ghost predicate SelectsInOrder(listing: seq<Utxo>, dust: seq<Utxo>, ps: seq<nat>)
  {
    && |ps| == |dust|
    && StrictlyIncreasing(ps)
    && (forall k :: 0 <= k < |ps| ==> ps[k] < |listing| && dust[k] == listing[ps[k]])
  }

  /** The listing positions whose entries are dust, in increasing order. */
  function DustPositions(listing: seq<Utxo>, threshold: nat): (ps: seq<nat>)
    ensures forall k :: 0 <= k < |ps| ==> ps[k] < |listing|
    ensures StrictlyIncreasing(ps)
    ensures forall j :: 0 <= j < |listing| ==> (j in ps <==> IsDust(listing[j], threshold))
    decreases |listing|
  {
    if |listing| == 0 then []
    else
      var n := |listing| - 1;
      var init := listing[..n];
      assert forall j :: 0 <= j < n ==> init[j] == listing[j];
      DustPositions(init, threshold) + (if IsDust(listing[n], threshold) then [n] else [])
  }

  /**
   The order half of the filter's meaning: the result lists exactly the dust
   positions of the listing, each once, in the listing's order.
   */
  lemma {:induction false} DustSelectsDustPositions(listing: seq<Utxo>, threshold: nat)
    ensures SelectsInOrder(listing, Dust(listing, threshold), DustPositions(listing, threshold))
    decreases |listing|
  {
    if |listing| > 0 {
      var n := |listing| - 1;
      var init := listing[..n];
      DustSelectsDustPositions(init, threshold);
      var d, ps := Dust(init, threshold), DustPositions(init, threshold);
      var tail := if IsDust(listing[n], threshold) then [listing[n]] else [];
      var tailPs := if IsDust(listing[n], threshold) then [n] else [];
      assert Dust(listing, threshold) == d + tail;
      assert DustPositions(listing, threshold) == ps + tailPs;
      forall k | 0 <= k < |ps + tailPs|
        ensures (ps + tailPs)[k] < |listing| && (d + tail)[k] == listing[(ps + tailPs)[k]]
      {
        if k < |ps| {
          assert (d + tail)[k] == d[k] == init[ps[k]];
        }
      }
    }
  }

  /** In a strictly increasing list the last element is the largest, and the others are exactly the smaller members. */
  lemma LastIsLargest(a: seq<nat>)
    requires StrictlyIncreasing(a) && |a| > 0
    ensures forall x :: x in a ==> x <= a[|a| - 1]
    ensures forall x :: x in a[..|a| - 1] <==> x in a && x < a[|a| - 1]
  {
  }

  /**
   Names the first element of a list as a member. Calling it on a list that
   may be empty supplies the witness the empty-list case of
   `IncreasingDeterminedByMembers` needs, without a branch that cannot be taken.
   */
  lemma FirstIsMember(s: seq<nat>)
    ensures |s| > 0 ==> s[0] in s
  {
  }

  /** Two strictly increasing position lists with the same members are the same list. */
  lemma {:induction false} IncreasingDeterminedByMembers(a: seq<nat>, b: seq<nat>)
    requires StrictlyIncreasing(a) && StrictlyIncreasing(b)
    requires forall x :: x in a <==> x in b
    ensures a == b
    decreases |a| + |b|
  {
    if |a| == 0 || |b| == 0 {
      FirstIsMember(a);
      FirstIsMember(b);
    } else {
      var ma, mb := a[|a| - 1], b[|b| - 1];
      LastIsLargest(a);
      LastIsLargest(b);
      assert ma in b && mb in a;
      assert ma == mb;
      var a', b' := a[..|a| - 1], b[..|b| - 1];
      assert StrictlyIncreasing(a') && StrictlyIncreasing(b');
      forall x
        ensures x in a' <==> x in b'
      {
        assert x in a' <==> x in a && x < ma;
        assert x in b' <==> x in b && x < mb;
      }
      IncreasingDeterminedByMembers(a', b');
      assert a == a' + [ma];
      assert b == b' + [mb];
    }
  }

  /**
   The filter's full meaning, as an independent characterisation: any
   order-preserving selection from the listing that takes exactly the entries
   below the threshold IS the filter's result.
   */
  lemma DustIsTheOrderedSelection(listing: seq<Utxo>, threshold: nat, dust: seq<Utxo>, ps: seq<nat>)
    requires SelectsInOrder(listing, dust, ps)
    requires forall j :: 0 <= j < |listing| ==> (j in ps <==> IsDust(listing[j], threshold))
    ensures dust == Dust(listing, threshold)
  {
    var qs := DustPositions(listing, threshold);
    DustSelectsDustPositions(listing, threshold);
    forall x
      ensures x in ps <==> x in qs
    {
      if x in ps {
        var k :| 0 <= k < |ps| && ps[k] == x;
        assert x < |listing|;
      }
      if x in qs {
        var k :| 0 <= k < |qs| && qs[k] == x;
        assert x < |listing|;
      }
    }
    IncreasingDeterminedByMembers(ps, qs);
  }

  /** Filtering distributes over concatenation of listings. */
  lemma {:induction false} DustAppend(a: seq<Utxo>, b: seq<Utxo>, threshold: nat)
    ensures Dust(a + b, threshold) == Dust(a, threshold) + Dust(b, threshold)
    decreases |b|
  {
    if |b| > 0 {
      var b', last := b[..|b| - 1], b[|b| - 1];
      assert (a + b)[..|a + b| - 1] == a + b';
      DustAppend(a, b', threshold);
    } else {
      assert a + b == a;
    }
  }

  /**
   Re-filtering with a lower or equal threshold is the same as filtering the
   listing directly: raising the threshold only ever adds entries, and the
   filter is idempotent.
   */
  lemma {:induction false} DustNested(listing: seq<Utxo>, low: nat, high: nat)
    requires low <= high
    ensures Dust(Dust(listing, high), low) == Dust(listing, low)
    decreases |listing|
  {
    if |listing| > 0 {
      var n := |listing| - 1;
      var init, last := listing[..n], listing[n];
      DustNested(init, low, high);
      var tail := if IsDust(last, high) then [last] else [];
      DustAppend(Dust(init, high), tail, low);
      if IsDust(last, high) {
        assert Dust(tail, low) == Dust([], low) + (if IsDust(last, low) then [last] else []) by {
          assert tail[..0] == [];
        }
      }
    }
  }
}
