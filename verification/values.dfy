/** Values the optimizer looks at, reduced to what it inspects. */
module Values {

  datatype Option<T> = None | Some(value: T)

  /** A Morpho value. The optimizer only stores values as type hints and
      compares them, so everything except nil, the integer and float samples
      used as type tags and the optimizer's AMBIGUOUS sentinel is an opaque
      object identity. Floats are kept as their bit pattern: no floating-point
      arithmetic is modelled. */
  datatype Val = Nil | Bool(b: bool) | Int(i: int) | Float(bits: nat) | Ambiguous | Obj(id: nat)
}
