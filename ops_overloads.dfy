/**
 * The result kinds the DSL declares for its operators (src/fheco/dsl/ops_overloads.hpp).
 *
 * The header declares overloads only; which kinds an operation accepts and which kind it
 * returns is the whole of its content. Each group of declarations is a partial function from
 * operand kinds to the result kind: `None` where no overload is declared.
 */
module OpsOverloads {
  import opened Wrappers

  datatype Kind = Ciphertext | Plaintext | Scalar

  /** The binary arithmetic operators and their compound assignments. */
  datatype ArithOp = Add | Sub | Mul

  /** The one-argument operations that keep the argument's kind where they are declared. */
  datatype UnaryOp =
    | Negate | RotateLeft | RotateRight | SubscriptedRead | Square | Exponentiate
    | ReduceAdd | ReduceMul

  /** The operations over a vector of arguments of one kind. */
  datatype ManyOp = AddMany | MulMany

  /** `operator+`, `operator-` and `operator*`: the three groups declare the same nine signatures. */
  function BinaryResult(op: ArithOp, lhs: Kind, rhs: Kind): (r: Option<Kind>)
    ensures r.Some?
  {
    match (lhs, rhs)
    case (Ciphertext, Ciphertext) => Some(Ciphertext)
    case (Ciphertext, Plaintext) => Some(Ciphertext)
    case (Ciphertext, Scalar) => Some(Ciphertext)
    case (Plaintext, Ciphertext) => Some(Ciphertext)
    case (Plaintext, Plaintext) => Some(Plaintext)
    case (Plaintext, Scalar) => Some(Plaintext)
    case (Scalar, Ciphertext) => Some(Ciphertext)
    case (Scalar, Plaintext) => Some(Plaintext)
    case (Scalar, Scalar) => Some(Scalar)
  }

  /** `operator+=`, `operator-=` and `operator*=`: the six declared signatures and their result kind. */
  function AssignResult(op: ArithOp, lhs: Kind, rhs: Kind): (r: Option<Kind>)
    ensures r.Some? ==> r.value == lhs
  {
    match (lhs, rhs)
    case (Ciphertext, Ciphertext) => Some(Ciphertext)
    case (Ciphertext, Plaintext) => Some(Ciphertext)
    case (Ciphertext, Scalar) => Some(Ciphertext)
    case (Plaintext, Plaintext) => Some(Plaintext)
    case (Plaintext, Scalar) => Some(Plaintext)
    case (Scalar, Scalar) => Some(Scalar)
    case _ => None
  }

  /** Negation, rotation, subscripted read, `square`, `exponentiate`, `reduce_add` and `reduce_mul`. */
  function UnaryResult(op: UnaryOp, arg: Kind): (r: Option<Kind>)
    ensures r.Some? ==> r.value == arg
  {
    match op
    case Negate => Some(arg)
    case _ => if arg == Scalar then None else Some(arg)
  }

  /** The rotation assignments `<<=` and `>>=`. */
  function RotateAssignResult(arg: Kind): (r: Option<Kind>)
    ensures r.Some? ==> r.value == arg
  {
    if arg == Scalar then None else Some(arg)
  }

  /** `encrypt`. */
  function EncryptResult(arg: Kind): (r: Option<Kind>)
    ensures r.Some? ==> r.value == Ciphertext
  {
    match arg
    case Plaintext => Some(Ciphertext)
    case Scalar => Some(Ciphertext)
    case Ciphertext => None
  }

  /** `add_many` and `mul_many`, over a vector whose elements have kind `arg`. */
  function ManyResult(op: ManyOp, arg: Kind): (r: Option<Kind>)
    ensures r.Some? ==> r.value == arg
  {
    if arg == Scalar then None else Some(arg)
  }

  /** `emulate_subscripted_write`: declared for equal kinds other than `Scalar`. */
  predicate SubscriptedWriteDeclared(lhs: Kind, rhs: Kind): (b: bool)
    ensures b <==> lhs == rhs && lhs != Scalar
  {
    match (lhs, rhs)
    case (Ciphertext, Ciphertext) => true
    case (Plaintext, Plaintext) => true
    case _ => false
  }

  /** How far a kind is from plain data: a ciphertext above a plaintext above a scalar. */
  function Rank(k: Kind): nat {
    match k
    case Scalar => 0
    case Plaintext => 1
    case Ciphertext => 2
  }

  /**
   * The binary result kind is the higher-ranked of the two operand kinds: a ciphertext when
   * either operand is one, a scalar only when both are, a plaintext otherwise.
   */
  lemma BinaryResultIsJoin(op: ArithOp, lhs: Kind, rhs: Kind)
    ensures Rank(BinaryResult(op, lhs, rhs).value) == if Rank(lhs) >= Rank(rhs) then Rank(lhs) else Rank(rhs)
    ensures BinaryResult(op, lhs, rhs) == Some(Ciphertext) <==> lhs == Ciphertext || rhs == Ciphertext
    ensures BinaryResult(op, lhs, rhs) == Some(Scalar) <==> lhs == Scalar && rhs == Scalar
    ensures BinaryResult(op, lhs, rhs) == Some(Plaintext) <==>
              lhs != Ciphertext && rhs != Ciphertext && (lhs == Plaintext || rhs == Plaintext)
  {
  }

  /** The binary result kind does not depend on the order of the operands, nor on the operator. */
  lemma BinaryResultSymmetric(op: ArithOp, op2: ArithOp, lhs: Kind, rhs: Kind)
    ensures BinaryResult(op, lhs, rhs) == BinaryResult(op2, rhs, lhs)
  {
  }

  /**
   * A compound assignment is declared exactly for the operand kinds whose binary result is
   * the kind of the left-hand side: it never changes the kind of the variable it assigns.
   */
  lemma CompoundAssignExactlyKindPreserving(op: ArithOp, lhs: Kind, rhs: Kind)
    ensures AssignResult(op, lhs, rhs).Some? <==> BinaryResult(op, lhs, rhs) == Some(lhs)
    ensures AssignResult(op, lhs, rhs).Some? <==> Rank(rhs) <= Rank(lhs)
  {
  }

  /** Negation is declared for every kind and keeps it. */
  lemma NegatePreservesKind(k: Kind)
    ensures UnaryResult(Negate, k) == Some(k)
  {
  }

  /**
   * Every other one-argument operation, rotations and their assignments included, and the
   * vector operations, are declared exactly for ciphertexts and plaintexts.
   */
  lemma NonScalarOperations(op: UnaryOp, m: ManyOp, k: Kind)
    requires op != Negate
    ensures UnaryResult(op, k).Some? <==> k != Scalar
    ensures RotateAssignResult(k).Some? <==> k != Scalar
    ensures ManyResult(m, k).Some? <==> k != Scalar
  {
  }

  /** `encrypt` is declared for everything that is not already a ciphertext. */
  lemma EncryptOnlyPlainData(k: Kind)
    ensures EncryptResult(k).Some? <==> k != Ciphertext
  {
  }

  /**
   * Encryption cannot be undone: once a value is a ciphertext, every declared operation on it
   * (alone or with any other operand) gives a ciphertext.
   */
  lemma CiphertextAbsorbs(op: ArithOp, u: UnaryOp, m: ManyOp, other: Kind)
    ensures BinaryResult(op, Ciphertext, other) == Some(Ciphertext)
    ensures BinaryResult(op, other, Ciphertext) == Some(Ciphertext)
    ensures UnaryResult(u, Ciphertext) == Some(Ciphertext)
    ensures ManyResult(m, Ciphertext) == Some(Ciphertext)
  {
  }
}
