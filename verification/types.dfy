/** The record types the importer produces and the aggregator consumes. */
module Types {
  import opened Wrappers

  /** A normalised import row: a spend of `amount` on `date` at
      `description`; the optional fields are absent rather than empty. */
  datatype Transaction = Transaction(
    date: string,
    description: string,
    amount: real,
    category: Option<string>,
    account: Option<string>,
    memo: Option<string>)

  /** The YNAB register row the aggregator groups: it keys on `payee` or
      `category` and sums `outflow`. */
  datatype YNABTransaction = YNABTransaction(
    account: string,
    flag: string,
    date: string,
    payee: string,
    categoryGroup: string,
    category: string,
    memo: string,
    outflow: real,
    inflow: real,
    cleared: string)

  /** One aggregated group: its key, the summed outflow and the number of
      transactions summed. */
  datatype SpendingCategory = SpendingCategory(name: string, amount: real, transactionCount: int)

  /** One scored guess of the game. */
  datatype GameResult = GameResult(
    categoryName: string,
    guess: real,
    actual: real,
    difference: real,
    percentOff: real)
}
