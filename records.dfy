/** The rows of the interaction table, before and after field normalisation. */
module Records {

  /** The placeholder written where an annotation has no bracketed value. */
  const NoInfo: string := "No_info"

  /** A row as read from the export: the five selected columns, all still raw text. */
  datatype RawRecord = RawRecord(
    uidA: string,
    uidB: string,
    interactionType: string,
    detectionMethod: string,
    hostTaxid: string)

  /** A normalised row: decoded type and method labels and a non-negative host taxon. */
  datatype Record = Record(
    uidA: string,
    uidB: string,
    interactionType: string,
    detectionMethod: string,
    taxid: nat)

  /** The exceptions the parser can raise on well-formed columns. */
  datatype Error =
    | TaxidNotInteger(text: string)        // `int()` rejects the captured taxon text
    | ComplexWithoutSecondRow(key: string) // `.iloc[1]` on a complex key with a single row
}
