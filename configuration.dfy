/**
 * The settings of TFBubbleItUpViewConfiguration that steer behaviour
 * (styling settings are not modelled). The source keeps them in mutable
 * static fields read on every operation; here each operation takes them
 * as a parameter.
 */
module Configuration {
  import opened Wrappers
  import opened Validation

  /** How many items the view may hold. */
  datatype NumberOfItems = Unlimited | Quantity(n: int)

  datatype Config = Config(
    numberOfItems: NumberOfItems,
    skipOnWhitespace: bool,
    skipOnReturnKey: bool,
    itemValidation: Option<Validator>)

  /** The defaults the source ships with. */
  function DefaultConfig(): (r: Config)
    ensures r.numberOfItems.Unlimited? && r.itemValidation.None?
    ensures r.skipOnWhitespace && !r.skipOnReturnKey
    ensures forall t :: IsValid(Some(t), r.itemValidation)
  {
    Config(Unlimited, true, false, None)
  }
}
