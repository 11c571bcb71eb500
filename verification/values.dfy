/** The loosely typed cell values the backend returns (strings, numbers,
    empty cells) and the three ways the dashboard turns one into text:
    `String(v)`, `String(v || '')` and `String(v ?? '')`. They differ on
    null, undefined and the number 0, so each is written out. */
module Values {
  import opened Strings

  datatype Option<T> = None | Some(value: T)

  /** A JSON cell as the page sees it. `Undefined` is what indexing past the
      end of a row yields. */
  datatype Cell = Undefined | Null | Text(s: string) | Num(n: int)

  type Row = seq<Cell>

  /** `row[i]`: `undefined` outside the row. */
  function At(row: Row, i: int): (c: Cell)
    ensures !(0 <= i < |row|) ==> c == Undefined
  {
    if 0 <= i < |row| then row[i] else Undefined
  }

  predicate IsNullish(c: Cell) {
    c.Undefined? || c.Null?
  }

  /** JavaScript truthiness of a cell. */
  predicate Truthy(c: Cell) {
    match c
    case Undefined => false
    case Null => false
    case Text(s) => s != []
    case Num(n) => n != 0
  }

  /** `String(v)`. */
  function ToStr(c: Cell): string {
    match c
    case Undefined => "undefined"
    case Null => "null"
    case Text(s) => s
    case Num(n) => IntToString(n)
  }

  /** `String(v || '')`: every falsy value, the number 0 included, becomes
      the empty string. */
  function StrOr(c: Cell): (r: string)
    ensures r == [] <==> !Truthy(c)
  {
    if Truthy(c) then ToStr(c) else ""
  }

  /** `String(v ?? '')`: only null and undefined become the empty string. */
  function StrNullish(c: Cell): (r: string)
    ensures r == [] <==> (IsNullish(c) || c == Text(""))
  {
    if IsNullish(c) then "" else ToStr(c)
  }
}
