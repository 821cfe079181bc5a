# Dust sweeper, modelled in Dafny

The dust sweeper looks at a wallet's unspent outputs, picks the "dust" (entries
whose satoshi amount is strictly below a threshold) and builds one unsigned
Bitcoin transaction that spends all of it to a burn address. This project
models the two pure steps of `DustSweeper` in `src/lib.rs`:

- **dust selection** (`get_dust_utxos`): an order-preserving filter over the
  node's unspent-output listing (module `DustFilter`, file `dust.dfy`);
- **transaction assembly** (`build_psbt`): one input per selected output, a
  fixed 500-satoshi fee, and a single output to the P2PKH script of
  `1BitcoinEaterAddressDontSendf59kuE`. The source's version is 2 and its lock
  time is 0 (module `Sweep`, file `sweep.dfy`).

`types.dfy` holds the data model: listing entries, outpoints, inputs, outputs
and transactions. `wrappers.dfy` holds the `Result` type. The source panics
when the summed amount does not exceed the fee. The model returns
`Err(FeeNotCovered)` in that case.

The code sends all dust to one transaction. The fee and the destination are
constants. A total at or below the fee is a failure, never a zero-value output.

## Model

| member | source | states |
|---|---|---|
| DustFilter.IsDust | src/lib.rs:24 | no contract of its own: the filter's test, an amount strictly below the threshold; its meaning in context is fixed by the contracts of Dust, DustPositions and TotalBelowThreshold |
| DustFilter.Dust | src/lib.rs:23-25 | every kept entry is from the listing and strictly below the threshold; every listing entry strictly below the threshold is kept; the result is no longer than the listing |
| DustFilter.GetDustUtxos | src/lib.rs:21-26 | the single left-to-right pass that appends each entry below the threshold yields exactly the filter's result |
| DustFilter.DustPositions | src/lib.rs:23-25 | the positions of the below-threshold entries form a strictly increasing list of valid indices, and a listing index is in it if and only if its entry is below the threshold |
| DustFilter.DustSelectsDustPositions | src/lib.rs:23-25 | the filter's result is the listing read at exactly the dust positions, in increasing position order: an order-preserving subsequence that takes each dust entry once |
| DustFilter.DustIsTheOrderedSelection | src/lib.rs:23-25 | any order-preserving selection from the listing that takes exactly the below-threshold positions equals the filter's result, so the result is uniquely determined by that description |
| DustFilter.DustAppend | src/lib.rs:23-25 | filtering a concatenated listing gives the concatenation of the filtered parts |
| DustFilter.DustNested | src/lib.rs:24 | re-filtering with a lower or equal threshold equals filtering the listing directly, so raising the threshold only adds entries and the filter is idempotent |
| Sweep.Total | src/lib.rs:38 | no entry's amount exceeds the total, and the total is zero exactly when every entry is worth nothing; how it behaves under concatenation and reordering is fixed by TotalAppend and TotalPermutation |
| Sweep.SweepInput | src/lib.rs:29-35 | no contract of its own: the input built for one listed output; what it is (spends that output's outpoint, empty script and witness, sequence 0xFFFFFFFD) is stated by BuildPsbt's clauses on the inputs |
| Sweep.BuildPsbt | src/lib.rs:28-65 | a transaction is produced if and only if the summed amount exceeds 500, and an empty list always fails; the inputs spend exactly the given outpoints in order; every input is unsigned (empty script and witness) and carries sequence 0xFFFFFFFD; there is one output, paying the burn script at least 1 satoshi, and output value plus 500 equals the summed input amount; version is 2 and lock time is 0 |
| Sweep.TotalAppend | src/lib.rs:38 | the summed amount of a concatenation is the sum of the parts' totals |
| Sweep.TotalPermutation | src/lib.rs:38 | any reordering of the swept outputs has the same total, so it leads to the same output value and the same success or failure |
| Sweep.TotalBelowThreshold | src/lib.rs:24 | for a list whose entries are all below the threshold, total + count is at most count × threshold |
| Sweep.SameOutcome | src/lib.rs:28-62 | two output lists give the same outcome if and only if both fall short of the fee, or both cover it with equal totals and the same outpoints in the same order; nothing else about the list affects the result, and no threshold or other state is involved |
| Sweep.SweepSpendsExactlyTheDust | src/lib.rs:21-36 | sweeping the filtered listing spends, in listing order, exactly the outpoints of the entries below the threshold, each once |
| Sweep.SweepNeedsEnoughDust | src/lib.rs:24-48 | a sweep of the filtered listing succeeds only if the threshold is at least 2 and count × (threshold − 1) exceeds 500, so a threshold of 0 or 1 never produces a transaction |

## Left out

- The node RPC call `list_unspent` (src/lib.rs:22) is network I/O. The listing is a parameter of the filter. Its failure is outside the model.
- Listing entries keep only txid, output index and amount. The node reports other fields, and the sweeper does not read them.
- Parsing the burn address text (src/lib.rs:40-42) is a library call. The model uses a constant script, the standard pay-to-pubkey-hash script built around the address's 20-byte hash.
- `Psbt::from_unsigned_tx` (src/lib.rs:64) is a library call, and so is its error result. The model's result is the unsigned transaction itself. `Sweep.BuildPsbt` states that every input is unsigned, which is the shape that container is built from.
- `psbt_to_base64` (src/lib.rs:68-70), meaning binary serialisation and base64 encoding, is library code and is not part of this model.
- `src/bin/dust_sweeper_cli.rs` is not part of this model. It parses arguments, connects, prints, and skips building when the dust list is empty.
- Sweep.Total: the source sums into a `u64` (src/lib.rs:38). The model sums unbounded naturals and does not model overflow.
- Output indices and sequence numbers are `u32` in the source. Amounts are `u64`. All of them are naturals in the model.
- Address grouping, a configurable fee or destination, a dry-run mode and a zero-floor output value are not in the code, so they are not modelled.
