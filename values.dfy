/** The dynamic JavaScript values the row mappers of services/dbService.ts see:
    NULL-able results, and the cells of a sql.js result row. */
module Values {

  datatype Option<+T> = None | Some(value: T)

  datatype Result<+R, +E> = Success(value: R) | Failure(error: E)

  /** One cell of a result row. `Undefined` is what indexing a row past its
      end yields; sql.js itself produces the other four. JavaScript numbers
      are modelled as integers. */
  datatype Cell = Undefined | Null | Num(n: int) | Str(s: string) | Blob(bytes: seq<bv8>)

  type Row = seq<Cell>

  /** `row[i]` */
  function At(row: Row, i: nat): Cell {
    if i < |row| then row[i] else Undefined
  }

  /** JavaScript truthiness of a cell: `undefined`, `null`, `0` and `''` are falsy. */
  predicate Truthy(c: Cell) {
    match c
    case Undefined => false
    case Null => false
    case Num(n) => n != 0
    case Str(s) => s != ""
    case Blob(_) => true
  }

  /** `a || b` on cells: the first operand when it is truthy, else the
      second; one of the two, and truthy exactly when either is. */
  function OrElse(a: Cell, b: Cell): (r: Cell)
    ensures r == a || r == b
    ensures Truthy(r) <==> Truthy(a) || Truthy(b)
  {
    if Truthy(a) then a else b
  }

  /** A nullable string as a cell. */
  function StrOrNull(s: Option<string>): Cell {
    if s.Some? then Str(s.value) else Null
  }

  /** `s || ''` on a nullable string. */
  function OrEmpty(s: Option<string>): string {
    if s.Some? then s.value else ""
  }
}
