/** Values, ids and snapshot entries shared by the runtime modules. */
module Variants {

  // cali_id_t is a 64-bit unsigned integer; the all-ones value is "no id".
  const INV_ID: nat := 0xFFFF_FFFF_FFFF_FFFF

  type Id = x: nat | x < 0x1_0000_0000_0000_0000

  datatype AttrType = InvType | UsrType | IntType | UintType | StringType | AddrType
                    | DoubleType | BoolType | TypeType | PtrType

  // A Variant compares equal exactly when type, size and value agree.
  datatype Variant = Empty
                   | Int(i: int)
                   | Uint(u: nat)
                   | Double(d: real)
                   | Bool(b: bool)
                   | String(s: string)
                   | Type(t: AttrType)

  // A blackboard or snapshot entry: nothing, a context tree node, or an
  // attribute:value pair stored as-is.
  datatype Entry = NoEntry
                 | Reference(node: Id)
                 | Immediate(attr: Id, value: Variant)
}
