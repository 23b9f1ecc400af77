/** The fragment of SQL that the statements of the `mbtiles` crate rely on:
    NULL, three-valued conditions and the value functions built on them. */
module Sql {

  /** A nullable column value; `None` is SQL NULL (and Rust's `None`). */
  datatype Option<+T> = None | Some(value: T)

  /** The value of a condition. */
  datatype Truth = True | False | Unknown

  function IsNull<T>(a: Option<T>): Truth {
    if a.None? then True else False
  }

  function NotNull<T>(a: Option<T>): Truth {
    if a.None? then False else True
  }

  /** `a != b`: unknown as soon as one side is NULL. */
  function NotEqual<T(==)>(a: Option<T>, b: Option<T>): Truth {
    if a.None? || b.None? then Unknown
    else if a.value != b.value then True
    else False
  }

  function Or(a: Truth, b: Truth): Truth {
    if a == True || b == True then True
    else if a == False && b == False then False
    else Unknown
  }

  /** A WHERE clause keeps a row only when its condition is true; unknown drops the row. */
  predicate Keeps(condition: Truth) {
    condition == True
  }

  function Coalesce<T>(a: Option<T>, b: Option<T>): Option<T> {
    if a.Some? then a else b
  }

  /** An application-defined function returns NULL on NULL. */
  function Apply<T, U>(f: T -> U, a: Option<T>): Option<U> {
    match a
    case None => None
    case Some(v) => Some(f(v))
  }

  /** The column of the row with key `k` in an outer join: NULL when there is no such row. */
  function Cell<K, V>(table: map<K, Option<V>>, k: K): Option<V> {
    if k in table then table[k] else None
  }

  datatype OnDuplicate = Override | Ignore

  /** What `INSERT OR REPLACE` and `INSERT OR IGNORE` make of a table with a primary key. */
  function Merge<K, V>(table: map<K, V>, rows: map<K, V>, mode: OnDuplicate): map<K, V> {
    match mode
    case Override => table + rows
    case Ignore => rows + table
  }
}
