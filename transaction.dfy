/** A transfer between two parties: a plain value with no identity of its own. */
module Transactions {

  /**
   * The transferred amount. The system stores it as a 64-bit float and never
   * computes with it; here it is opaque and only compared for equality.
   */
  type Amount(==)

  datatype Transaction = Transaction(sender: string, recipient: string, amount: Amount)
}
