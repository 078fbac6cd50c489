/** Types shared by the transport models. */
module Wire {
  /** An octet, with the machine's own shifts and masks. */
  type Byte = bv8

  datatype Option<+T> = None | Some(value: T)

  function Min(a: int, b: int): int { if a < b then a else b }

  function Max(a: int, b: int): int { if a > b then a else b }
}
