/** The quote record shared by the store and the handlers. */
module Models {

  /** A quotation. `id` is assigned by the store; a decoded request body may carry
      any id, which the store overwrites. `text` is the field the service calls `Quote`. */
  datatype Quote = Quote(id: int, author: string, text: string)
}
