/** The component record that flows through the whole pipeline, and the
    fixed list of its output field names. */
module Records {
  import opened Wrappers

  /** The eight named fields of a component (the `fields` list). */
  datatype Field = Schematic | Name | Ref | Value | Footprint | Url | Supplier | SupplierRef

  const FieldNames: seq<string> :=
    ["schematic", "name", "ref", "value", "footprint", "url", "supplier", "supplier_ref"]

  function FieldName(f: Field): string
  {
    match f
    case Schematic => "schematic"
    case Name => "name"
    case Ref => "ref"
    case Value => "value"
    case Footprint => "footprint"
    case Url => "url"
    case Supplier => "supplier"
    case SupplierRef => "supplier_ref"
  }

  /** The field a command-line name stands for, if it is one of `fields`. */
  function FieldNamed(s: string): (r: Option<Field>)
  {
    if s == "schematic" then Some(Schematic)
    else if s == "name" then Some(Name)
    else if s == "ref" then Some(Ref)
    else if s == "value" then Some(Value)
    else if s == "footprint" then Some(Footprint)
    else if s == "url" then Some(Url)
    else if s == "supplier" then Some(Supplier)
    else if s == "supplier_ref" then Some(SupplierRef)
    else None
  }

  /** A component: the dictionary built by the parser, with the per-file
      quantity multiplier kept beside the eight text fields. */
  datatype Component = Component(
    schematic: string,
    name: string,
    ref: string,
    value: string,
    footprint: string,
    url: string,
    supplier: string,
    supplierRef: string,
    multiplier: int)

  function Get(c: Component, f: Field): string
  {
    match f
    case Schematic => c.schematic
    case Name => c.name
    case Ref => c.ref
    case Value => c.value
    case Footprint => c.footprint
    case Url => c.url
    case Supplier => c.supplier
    case SupplierRef => c.supplierRef
  }

  /** The record started on `$Comp`: every field empty except the file name
      and the file's multiplier. */
  function Fresh(schematic: string, multiplier: int): (c: Component)
    ensures forall f :: f != Schematic ==> Get(c, f) == ""
    ensures c.schematic == schematic && c.multiplier == multiplier
  {
    Component(schematic, "", "", "", "", "", "", "", multiplier)
  }

  /** Every field name names exactly one field. */
  lemma FieldNamesRoundTrip(f: Field)
    ensures FieldName(f) in FieldNames && FieldNamed(FieldName(f)) == Some(f)
  {
  }

  lemma FieldNamedMeaning(s: string)
    ensures FieldNamed(s).Some? <==> s in FieldNames
    ensures FieldNamed(s).Some? ==> FieldName(FieldNamed(s).value) == s
  {
  }
}
