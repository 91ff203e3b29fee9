/** Values found in a decoded JSON document or in a table cell. */
module Cells {

  datatype Cell =
    | Num(value: real)          // a JSON number or a numeric table cell
    | Text(text: string)        // a string
    | Null                      // JSON null, Python None
    | NumberText(shown: real)   // the string str(x) of a number x, as an f-string renders it;
                                // only the marker row's strike is one, never a decoded JSON value

  /** The empty string that the scripts use for a blank cell. */
  const Blank: Cell := Text("")

  /** A JSON object whose members are plain values. */
  type Object = map<string, Cell>

  /** `obj.get(key, default)`. */
  function Get(obj: Object, key: string, default: Cell): Cell
  {
    if key in obj then obj[key] else default
  }
}
