/** Small helpers shared by every module of the model. */
module Common {

  /** An optional value: `None` stands for the source's NULL / Python None. */
  datatype Option<+T> = None | Some(value: T)

  function Min(a: int, b: int): int { if a < b then a else b }

  function Max(a: int, b: int): int { if a > b then a else b }
}
