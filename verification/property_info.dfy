/** The records the `property-information` package's `find` returns: how a
    hast property name maps onto a DOM attribute and property, and how its
    value is encoded. `find` itself is external and enters the transforms
    as a function parameter. */
module PropertyInfo {

  /** The two schemas `find` is consulted against. */
  datatype Space = HtmlSpace | SvgSpace

  /** The flags the current transform reads. */
  datatype Info = Info(
    attribute: string,
    property: string,
    mustUseProperty: bool,
    boolean: bool,
    booleanish: bool,
    overloadedBoolean: bool,
    commaSeparated: bool)

  /** The flags the older transform reads: those of `Info` plus
      `mustUseAttribute` and `spaceSeparated`. */
  datatype LegacyInfo = LegacyInfo(
    attribute: string,
    property: string,
    mustUseAttribute: bool,
    mustUseProperty: bool,
    boolean: bool,
    booleanish: bool,
    overloadedBoolean: bool,
    commaSeparated: bool,
    spaceSeparated: bool)
}
