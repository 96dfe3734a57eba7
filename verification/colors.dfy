/** The stroke/fill colour pairs of the semantic variants used to paint
    sketched shapes. The table is a constant: nothing reassigns it, so every
    lookup sees the same pairs. */
module Colors {
  import opened Wrappers

  datatype Variant = Default | Accent | Success | Danger | Muted

  datatype VariantColor = VariantColor(stroke: string, fill: string)

  /** `VARIANT_COLORS`: one entry per variant. */
  const VARIANT_COLORS: map<Variant, VariantColor> := map[
    Default := VariantColor("rgba(255, 107, 237, 0.7)", "rgba(52, 63, 96, 0.4)"),
    Accent := VariantColor("rgba(255, 107, 237, 0.9)", "rgba(255, 107, 237, 0.15)"),
    Success := VariantColor("rgba(52, 211, 153, 0.8)", "rgba(52, 211, 153, 0.12)"),
    Danger := VariantColor("rgba(248, 113, 113, 0.8)", "rgba(248, 113, 113, 0.1)"),
    Muted := VariantColor("rgba(255, 255, 255, 0.3)", "rgba(255, 255, 255, 0.05)")
  ]

  /** `EDGE_STROKE`: the stroke colour of edges. */
  const EDGE_STROKE: string := "rgba(255, 107, 237, 0.5)"

  /** The table has an entry for every variant, as `Record<Variant, VariantColor>`
      requires. */
  lemma TableIsTotal()
    ensures forall v: Variant :: v in VARIANT_COLORS
  {
    forall v: Variant ensures v in VARIANT_COLORS {
      match v
      case Default =>
      case Accent =>
      case Success =>
      case Danger =>
      case Muted =>
    }
  }

  /** `getVariantColors(variant?)`: the table entry of the variant, or of
      `default` when the variant is absent. */
  function GetVariantColors(variant: Option<Variant>): (c: VariantColor)
    ensures variant.Some? ==> variant.value in VARIANT_COLORS && c == VARIANT_COLORS[variant.value]
    ensures variant.None? ==> c == VARIANT_COLORS[Default]
    ensures c in VARIANT_COLORS.Values
  {
    TableIsTotal();
    VARIANT_COLORS[variant.GetOr(Default)]
  }

  /** An absent variant is the same as asking for `default`. */
  lemma AbsentIsDefault()
    ensures GetVariantColors(None) == GetVariantColors(Some(Default))
  {
  }

  /** The literal pair of every variant. */
  lemma VariantColorValues()
    ensures GetVariantColors(Some(Default)) == VariantColor("rgba(255, 107, 237, 0.7)", "rgba(52, 63, 96, 0.4)")
    ensures GetVariantColors(Some(Accent)) == VariantColor("rgba(255, 107, 237, 0.9)", "rgba(255, 107, 237, 0.15)")
    ensures GetVariantColors(Some(Success)) == VariantColor("rgba(52, 211, 153, 0.8)", "rgba(52, 211, 153, 0.12)")
    ensures GetVariantColors(Some(Danger)) == VariantColor("rgba(248, 113, 113, 0.8)", "rgba(248, 113, 113, 0.1)")
    ensures GetVariantColors(Some(Muted)) == VariantColor("rgba(255, 255, 255, 0.3)", "rgba(255, 255, 255, 0.05)")
  {
  }
}
