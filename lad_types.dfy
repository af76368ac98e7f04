/** Shared vocabulary of the LAD vintage-mapping builder: codes and names are
    opaque strings compared by exact equality, a vintage is the (code, name)
    list published for one boundary year, and a missing pandas value is None. */
module LadTypes {

  datatype Option<T> = None | Some(value: T)

  type Code = string
  type Name = string

  /** One row of a vintage's code list: its LADyyCD and LADyyNM. */
  datatype Unit = Unit(code: Code, name: Name)

  /** The code list of one boundary vintage, in file order. */
  type Vintage = seq<Unit>

  /** The 'year code' tags, LAD followed by the year's last two digits, of the vintages the
      builder reads (the 1991 list is read but never used). */
  datatype YearCode = LAD11 | LAD15 | LAD16 | LAD17 | LAD18 | LAD19 | LAD20 | LAD21 | LAD23

  /** The text of a year code, as it is written in the 'year code' column. */
  function YearText(y: YearCode): string
  {
    match y
    case LAD11 => "LAD11"
    case LAD15 => "LAD15"
    case LAD16 => "LAD16"
    case LAD17 => "LAD17"
    case LAD18 => "LAD18"
    case LAD19 => "LAD19"
    case LAD20 => "LAD20"
    case LAD21 => "LAD21"
    case LAD23 => "LAD23"
  }

  /** The column an all-years table is built on: LADCD or LADNM. */
  datatype KeyKind = ByCode | ByName

  function KeyOf(u: Unit, k: KeyKind): string
  {
    if k == ByCode then u.code else u.name
  }

  /** The set of codes, or of names, a vintage lists. */
  function VintageKeys(v: Vintage, k: KeyKind): set<string>
  {
    set u | u in v :: KeyOf(u, k)
  }

  function Codes(v: Vintage): set<Code>
  {
    VintageKeys(v, ByCode)
  }

  function Names(v: Vintage): set<Name>
  {
    VintageKeys(v, ByName)
  }

  /** No two rows of a vintage carry the same code. */
  predicate UniqueCodes(v: Vintage)
  {
    forall i, j :: 0 <= i < j < |v| ==> v[i].code != v[j].code
  }

  /** Exactly one row of the vintage, row i, carries the name n. */
  predicate NamedOnlyAt(v: Vintage, n: Name, i: nat)
  {
    && i < |v|
    && v[i].name == n
    && forall j :: 0 <= j < |v| && j != i ==> v[j].name != n
  }
}
