/**
 * Pattern-side enumerations and the fixed dispatch tables of the rewriting engine
 * (fheco/src/trs/trs_const.hpp).
 */
module TrsConst {
  import opened Wrappers
  import Ir

  /**
   * Pattern kinds. The first six are the enumerators of the header; `Constant` is the
   * pattern kind that src/fheco/trs/trs_core.cpp tests for (`TermType::constant`) but that the
   * header shown does not declare.
   */
  datatype TermType =
    | RawDataType | ScalarType | CiphertextType | PlaintextType | BooleanType | OpcodeAttribute
    | Constant

  /** Pattern opcodes, in the order of the header. */
  datatype OpCode =
    | Undefined | Assign | Encrypt | Add | AddPlain | Mul | MulPlain | Sub | SubPlain
    | Rotate | RotateRows | RotateColumns | Square | Negate | Exponentiate | Modswitch
    | Relinearize | Rescale | LessThanOrEqual | GreaterThanOrEqual | LessThan | GreaterThan
    | NotEqual | Equal | And | Or | Not

  /** Kinds whose leaves may appear as operands of a comparison in a rewrite condition. */
  const RewriteConditionTypes: set<TermType> := {RawDataType, ScalarType}

  /** Kinds that are attributes rather than values. */
  const TermTypesAttributes: set<TermType> := {OpcodeAttribute}

  /** Pattern opcode to IR opcode, as the header lists it. */
  const OpcodeMapping: map<OpCode, Ir.OpCode> := map[
    Undefined := Ir.Undefined,
    Add := Ir.Add,
    Mul := Ir.Mul,
    Sub := Ir.Sub,
    Rotate := Ir.Rotate,
    RotateRows := Ir.RotateRows,
    AddPlain := Ir.AddPlain,
    SubPlain := Ir.SubPlain,
    MulPlain := Ir.MulPlain,
    Relinearize := Ir.Relinearize,
    Modswitch := Ir.Modswitch,
    Negate := Ir.Negate,
    Square := Ir.Square,
    Rescale := Ir.Rescale,
    Exponentiate := Ir.Exponentiate
  ]

  /** Pattern kind to IR kind, as the header lists it. */
  const TermTypeMap: map<TermType, Ir.TermType> := map[
    CiphertextType := Ir.CiphertextType,
    PlaintextType := Ir.PlaintextType,
    ScalarType := Ir.ScalarType,
    RawDataType := Ir.RawDataType
  ]

  /**
   * `opcode_mapping[op]` as `match_term` reads it: `operator[]` on a missing key yields the
   * value-initialised IR opcode, its first enumerator `undefined`.
   */
  function MappedOpCode(op: OpCode): (r: Ir.OpCode)
    ensures op !in OpcodeMapping ==> r == Ir.Undefined
  {
    if op in OpcodeMapping then OpcodeMapping[op] else Ir.Undefined
  }

  /**
   * The set of IR kinds a pattern kind admits, as `match_term` reads `term_type_map`: one
   * kind for each of the header's four entries, the given `constantTypes` for the `Constant`
   * kind, and the empty set that `operator[]` inserts for every other key.
   */
  function ValidIrTypes(t: TermType, constantTypes: seq<Ir.TermType>): (r: set<Ir.TermType>)
    ensures t in TermTypeMap ==> r == {TermTypeMap[t]}
    ensures t == BooleanType || t == OpcodeAttribute ==> r == {}
  {
    if t == Constant then set k | k in constantTypes
    else if t in TermTypeMap then {TermTypeMap[t]}
    else {}
  }

  /**
   * The element `*term_type_map[t].begin()` yields when a constant node is created: the
   * first of the admitted kinds, or none when the set is empty.
   */
  function FirstIrType(t: TermType, constantTypes: seq<Ir.TermType>): (r: Option<Ir.TermType>)
    ensures r.Some? <==> ValidIrTypes(t, constantTypes) != {}
    ensures r.Some? ==> r.value in ValidIrTypes(t, constantTypes)
  {
    if t == Constant then
      if |constantTypes| == 0 then None
      else
        assert constantTypes[0] in ValidIrTypes(t, constantTypes);
        Some(constantTypes[0])
    else if t in TermTypeMap then Some(TermTypeMap[t])
    else None
  }

  /** The IR opcode of the same name as a pattern opcode, where the IR has one. */
  function SameNamedIrOpCode(op: OpCode): Option<Ir.OpCode> {
    match op
    case Undefined => Some(Ir.Undefined)
    case Assign => Some(Ir.Assign)
    case Encrypt => Some(Ir.Encrypt)
    case Add => Some(Ir.Add)
    case AddPlain => Some(Ir.AddPlain)
    case Mul => Some(Ir.Mul)
    case MulPlain => Some(Ir.MulPlain)
    case Sub => Some(Ir.Sub)
    case SubPlain => Some(Ir.SubPlain)
    case Rotate => Some(Ir.Rotate)
    case RotateRows => Some(Ir.RotateRows)
    case RotateColumns => Some(Ir.RotateColumns)
    case Square => Some(Ir.Square)
    case Negate => Some(Ir.Negate)
    case Exponentiate => Some(Ir.Exponentiate)
    case Modswitch => Some(Ir.Modswitch)
    case Relinearize => Some(Ir.Relinearize)
    case Rescale => Some(Ir.Rescale)
    case _ => None
  }

  /** Opcodes a rule condition is built from: the comparisons and the connectives. */
  predicate IsConditionOpCode(op: OpCode) {
    op in {LessThanOrEqual, GreaterThanOrEqual, LessThan, GreaterThan, NotEqual, Equal, And, Or, Not}
  }

  /**
   * `opcode_mapping` sends each listed pattern opcode to the IR opcode of the same name,
   * different listed opcodes to different IR opcodes, and lists neither `assign`, `encrypt`,
   * `rotate_columns` nor any condition opcode.
   */
  lemma OpcodeMappingShape()
    ensures forall op :: op in OpcodeMapping ==> SameNamedIrOpCode(op) == Some(OpcodeMapping[op])
    ensures forall a, b :: a in OpcodeMapping && b in OpcodeMapping && OpcodeMapping[a] == OpcodeMapping[b] ==> a == b
    ensures forall op :: op !in OpcodeMapping <==> op in {Assign, Encrypt, RotateColumns} || IsConditionOpCode(op)
  {
    forall op
      ensures op !in OpcodeMapping <==> op in {Assign, Encrypt, RotateColumns} || IsConditionOpCode(op)
    {
      match op
      case Assign | Encrypt | RotateColumns => assert op !in OpcodeMapping.Keys;
      case LessThanOrEqual | GreaterThanOrEqual | LessThan | GreaterThan | NotEqual | Equal | And | Or | Not =>
        assert op !in OpcodeMapping.Keys;
      case _ =>
    }
  }

  /**
   * `term_type_map` covers exactly the four value kinds, each sent to the IR kind of the same
   * name and different kinds to different IR kinds; it covers neither booleans nor attributes,
   * and no condition type or attribute is a ciphertext or plaintext kind.
   */
  lemma TermTypeTablesShape()
    ensures TermTypeMap.Keys == {CiphertextType, PlaintextType, ScalarType, RawDataType}
    ensures forall a, b :: a in TermTypeMap && b in TermTypeMap && TermTypeMap[a] == TermTypeMap[b] ==> a == b
    ensures forall t :: t in RewriteConditionTypes ==> t in TermTypeMap && TermTypeMap[t] in {Ir.ScalarType, Ir.RawDataType}
    ensures RewriteConditionTypes !! TermTypesAttributes
    ensures forall t :: t in TermTypesAttributes ==> t !in TermTypeMap
  {
  }
}
