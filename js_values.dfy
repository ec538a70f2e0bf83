/** The JavaScript values a query response carries in a cell, and the two
    fallback operators the page applies to them. */
module JsValues {
  import opened Wrappers

  /** A JSON scalar as it can appear in a cell's raw value `v` or formatted
      value `f`. JSON null, and a property that is absent, are `None` of an
      `Option<Value>` wherever they can occur. */
  datatype Value = Str(s: string) | Num(n: real) | Bool(b: bool)

  /** The empty string, the page's default for every missing value. */
  const Blank: Value := Str("")

  /** JavaScript truthiness of a defined, non-null scalar. */
  predicate Truthy(x: Value)
  {
    match x
    case Str(s) => s != ""
    case Num(n) => n != 0.0
    case Bool(b) => b
  }

  /** `x ?? fallback`: only null and undefined fall through. */
  function Coalesce(x: Option<Value>, fallback: Value): Value
  {
    match x
    case Some(y) => y
    case None => fallback
  }

  /** `x || fallback`: every falsy value falls through, undefined included. */
  function OrElse(x: Option<Value>, fallback: Value): Value
  {
    if x.Some? && Truthy(x.value) then x.value else fallback
  }
}
