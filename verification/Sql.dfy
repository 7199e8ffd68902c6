/**
 The part of SQL's null semantics the upsert statements rely on. A nullable column is an
 `Option`; a condition is three-valued, and `CASE WHEN` and `WHERE` fire on `Yes` only.
 */
module Sql {

  datatype Option<+T> = None | Some(value: T)

  datatype Truth = Yes | No | Unknown

  function TruthOf(b: bool): Truth {
    if b then Yes else No
  }

  /** `a >= b`: unknown as soon as one side is null. */
  function AtLeast(a: Option<int>, b: Option<int>): Truth {
    if a.Some? && b.Some? then TruthOf(a.value >= b.value) else Unknown
  }

  /** `a = 'text'` */
  function EqualTo(a: Option<string>, text: string): Truth {
    if a.Some? then TruthOf(a.value == text) else Unknown
  }

  /** `a IS NULL` and `a IS DISTINCT FROM b` are never unknown. */
  function IsNull<T>(a: Option<T>): Truth {
    TruthOf(a.None?)
  }

  function IsDistinctFrom(a: Option<string>, b: Option<string>): Truth {
    TruthOf(a != b)
  }

  function And(p: Truth, q: Truth): Truth {
    if p == No || q == No then No
    else if p == Yes && q == Yes then Yes
    else Unknown
  }

  function Or(p: Truth, q: Truth): Truth {
    if p == Yes || q == Yes then Yes
    else if p == No && q == No then No
    else Unknown
  }

  function Coalesce<T>(a: Option<T>, b: Option<T>): Option<T> {
    if a.Some? then a else b
  }

  /** `GREATEST` skips nulls and is null only when every argument is. */
  function Greatest(a: Option<int>, b: Option<int>): Option<int> {
    if a.None? then b
    else if b.None? then a
    else Some(if a.value >= b.value then a.value else b.value)
  }
}
