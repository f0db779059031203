/** Transactions: an unsigned record that is signed in place, then validated into the record blocks carry. */
module Transactions {
  import opened Wrappers
  import opened Format

  /** An `f64` amount. It is only ever copied and formatted, so it is kept abstract. */
  type Amount

  /** The record blocks carry: every field of a signed transaction, the signature no longer optional. */
  datatype ValidatedTransaction = ValidatedTransaction(
    id: U32,
    sender: string,
    receiver: string,
    amount: Amount,
    signature: string)

  class Transaction {
    var id: U32
    var sender: string
    var receiver: string
    var amount: Amount
    var signature: Option<string>

    /** `Transaction::new`: the given fields, not yet signed. */
    constructor (id: U32, sender: string, receiver: string, amount: Amount)
      ensures this.id == id && this.sender == sender && this.receiver == receiver
      ensures this.amount == amount && signature == None
    {
      this.id := id;
      this.sender := sender;
      this.receiver := receiver;
      this.amount := amount;
      signature := None;
    }

    /** `sign`: (re)places the signature; a later signature overwrites an earlier one. */
    method Sign(signature: string)
      modifies this`signature
      ensures this.signature == Some(signature)
      ensures Validate() == Ok(ValidatedTransaction(id, sender, receiver, amount, signature))
    {
      this.signature := Some(signature);
    }

    /** `validate`: reads the transaction and fails exactly when it is unsigned. */
    function Validate(): (r: Result<ValidatedTransaction, string>)
      reads this
      ensures r.Ok? <==> signature.Some?
      ensures r.Err? ==> r.error == "Transaction not signed"
      ensures r.Ok? ==>
        && r.value.id == id && r.value.sender == sender && r.value.receiver == receiver
        && r.value.amount == amount && Some(r.value.signature) == signature
    {
      match signature
      case Some(sig) => Ok(ValidatedTransaction(id, sender, receiver, amount, sig))
      case None => Err("Transaction not signed")
    }
  }
}
