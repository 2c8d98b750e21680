/**
 * The two value types of the library: a block and its elements. Both are
 * plain records; equality is the structural, field-by-field equality that a
 * derived `PartialEq` gives, and the field order is the declaration order,
 * which is also the key order of the JSON encoding.
 */
module Models {

  /** One named sub-part of a block, with its own ordered modifiers. */
  datatype BemElement = BemElement(name: string, modifiers: seq<string>)

  /** The top-level component: a name, ordered modifiers, ordered elements. */
  datatype BemBlock = BemBlock(name: string, modifiers: seq<string>, elements: seq<BemElement>)

  /** Derived equality on blocks compares the three fields, sequences position by position. */
  lemma BlockEquality(a: BemBlock, b: BemBlock)
    ensures a == b <==> a.name == b.name && a.modifiers == b.modifiers && a.elements == b.elements
    ensures a == b ==> forall i :: 0 <= i < |a.elements| ==> a.elements[i] == b.elements[i]
  {
  }

  /** Derived equality on elements compares name and modifiers, position by position. */
  lemma ElementEquality(a: BemElement, b: BemElement)
    ensures a == b <==> a.name == b.name && a.modifiers == b.modifiers
    ensures a == b <==> a.name == b.name && |a.modifiers| == |b.modifiers|
                        && forall i :: 0 <= i < |a.modifiers| ==> a.modifiers[i] == b.modifiers[i]
  {
  }

  /** Order matters: the same modifiers in another order make another block. */
  lemma ModifierOrderMatters(name: string, m1: string, m2: string)
    requires m1 != m2
    ensures BemBlock(name, [m1, m2], []) != BemBlock(name, [m2, m1], [])
  {
  }
}
