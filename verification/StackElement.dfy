/** A slot of the abstract stack: a known literal, or an unknown value (the
    string only documents where the unknown value came from). */
module StackElement {

  datatype StackElem = Value(v: nat) | Random(s: string)
}
