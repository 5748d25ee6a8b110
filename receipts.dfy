/** The submitted receipt, as the request body carries it: every field is text. */
module Receipts {

  datatype Item = Item(shortDescription: string, price: string)

  datatype Receipt = Receipt(
    retailer: string,
    purchaseDate: string,
    purchaseTime: string,
    items: seq<Item>,
    total: string)
}
