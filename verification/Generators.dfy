/** What a database draws from outside itself. */
module Generators {
  import opened Base
  import opened Ledger

  /** The successive results of the generators a database draws from. */
  datatype Sources = Sources(
    ticks: nat -> u64,
    txIds: nat -> TxId,
    factIds: nat -> FactId,
    nowMs: nat -> u64)
}
