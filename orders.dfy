/** The domain records on the `orders` and `orders-taxed` topics. Go's float64 fields are
    modelled as reals; float rounding is not part of this model. */
module Orders {

  /** An order as the producer writes it to `orders`. */
  datatype Order = Order(id: int, amount: real)

  /** An order with its tax, as the processor writes it to `orders-taxed`. */
  datatype OrderWithTax = OrderWithTax(id: int, amount: real, tax: real)
}
