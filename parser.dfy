/**
 * The model builder of `src/parser.rs`. The grammar and its runtime are
 * opaque: the builder receives either the grammar's error message or the
 * top-level `bem` parse node, each node carrying its rule, the text it
 * matched and its child nodes in input order.
 *
 * Both builder loops are specified by left folds over the children
 * (`PartFold`, `BemFold`); the methods `ParsePart` and `ParseBem` are the
 * loops of the source, proved equal to the folds, and the lemmas below the
 * folds state what the folds compute without reference to their steps.
 */
module Parser {
  import opened Results
  import opened Models

  /** The rules of the grammar; `Other` stands for any rule the builder does not handle. */
  datatype Rule = Bem | Block | Element | Name | Modifiers | Modifier | Other(tag: string)

  /** A matched grammar node: its rule, the text it spans, its children in order. */
  datatype Pair = Pair(rule: Rule, text: string, inner: seq<Pair>)

  /** What `parse_part` yields: a name and an ordered list of modifiers. */
  datatype Part = Part(name: string, modifiers: seq<string>)

  function RuleName(r: Rule): string {
    match r
    case Bem => "bem"
    case Block => "block"
    case Element => "element"
    case Name => "name"
    case Modifiers => "modifiers"
    case Modifier => "modifier"
    case Other(tag) => tag
  }

  function UnexpectedRule(r: Rule): string {
    "Unexpected rule: " + RuleName(r)
  }

  /** The texts of the given nodes, in order (the `map(..).collect()` over the modifiers node). */
  function Texts(ps: seq<Pair>): (r: seq<string>)
    ensures |r| == |ps|
    ensures forall i :: 0 <= i < |ps| ==> r[i] == ps[i].text
  {
    if ps == [] then [] else [ps[0].text] + Texts(ps[1..])
  }

  // ---------------------------------------------------------------------
  // parse_part

  /** One iteration of the loop of `parse_part`. */
  function PartStep(acc: Part, p: Pair): Result<Part> {
    match p.rule
    case Name => Ok(acc.(name := p.text))
    case Modifiers => Ok(acc.(modifiers := Texts(p.inner)))
    case _ => Err(UnexpectedRule(p.rule))
  }

  /** The loop of `parse_part` over the children `ps`, stopping at the first error. */
  function PartFold(ps: seq<Pair>): Result<Part>
    decreases |ps|
  {
    if ps == [] then Ok(Part("", []))
    else
      var acc :- PartFold(ps[..|ps| - 1]);
      PartStep(acc, ps[|ps| - 1])
  }

  method ParsePart(pair: Pair) returns (r: Result<Part>)
    ensures r == PartFold(pair.inner)
  {
    var name := "";
    var modifiers: seq<string> := [];
    var children := pair.inner;
    for i := 0 to |children|
      invariant PartFold(children[..i]) == Ok(Part(name, modifiers))
    {
      var child := children[i];
      assert children[..i + 1][..i] == children[..i];
      match child.rule {
        case Name =>
          name := child.text;
        case Modifiers =>
          modifiers := Texts(child.inner);
        case _ =>
          PartFoldStuck(children, i + 1);
          return Err(UnexpectedRule(child.rule));
      }
    }
    assert children[..|children|] == children;
    return Ok(Part(name, modifiers));
  }

  /** Once a prefix of the children has failed, the whole loop fails with the same error. */
  lemma {:induction false} PartFoldStuck(ps: seq<Pair>, k: nat)
    requires k <= |ps| && PartFold(ps[..k]).Err?
    ensures PartFold(ps) == PartFold(ps[..k])
    decreases |ps| - k
  {
    if k == |ps| {
      assert ps[..k] == ps;
    } else {
      var init := ps[..|ps| - 1];
      assert init[..k] == ps[..k];
      PartFoldStuck(init, k);
    }
  }

  /** Index of the last node with rule `r`, or -1 when there is none. */
  function LastIndex(ps: seq<Pair>, r: Rule): (k: int)
    ensures -1 <= k < |ps|
    ensures k >= 0 ==> ps[k].rule == r
    ensures forall j :: k < j < |ps| ==> ps[j].rule != r
    decreases |ps|
  {
    if ps == [] then -1
    else if ps[|ps| - 1].rule == r then |ps| - 1
    else LastIndex(ps[..|ps| - 1], r)
  }

  predicate IsPartRule(r: Rule) {
    r.Name? || r.Modifiers?
  }

  /** The text of the last `name` child, or "" when there is none. */
  function NameOf(ps: seq<Pair>): string {
    var k := LastIndex(ps, Name);
    if k < 0 then "" else ps[k].text
  }

  /** The child texts of the last `modifiers` child, or [] when there is none. */
  function ModifiersOf(ps: seq<Pair>): seq<string> {
    var k := LastIndex(ps, Modifiers);
    if k < 0 then [] else Texts(ps[k].inner)
  }

  /**
   * `parse_part` succeeds exactly when every child is a `name` or a
   * `modifiers` node, and then the last of each kind wins.
   */
  lemma {:induction false} PartFoldResult(ps: seq<Pair>)
    ensures PartFold(ps).Ok? <==> forall i :: 0 <= i < |ps| ==> IsPartRule(ps[i].rule)
    ensures PartFold(ps).Ok? ==> PartFold(ps).value == Part(NameOf(ps), ModifiersOf(ps))
    decreases |ps|
  {
    if ps != [] {
      var init := ps[..|ps| - 1];
      PartFoldResult(init);
      assert forall i :: 0 <= i < |init| ==> init[i] == ps[i];
    }
  }

  /** A failing `parse_part` reports the rule of its first unexpected child. */
  lemma {:induction false} PartFoldError(ps: seq<Pair>)
    requires PartFold(ps).Err?
    ensures exists i :: 0 <= i < |ps| && !IsPartRule(ps[i].rule)
                        && (forall j :: 0 <= j < i ==> IsPartRule(ps[j].rule))
                        && PartFold(ps).msg == UnexpectedRule(ps[i].rule)
    decreases |ps|
  {
    var init := ps[..|ps| - 1];
    assert forall i :: 0 <= i < |init| ==> init[i] == ps[i];
    if PartFold(init).Err? {
      PartFoldError(init);
      var i :| 0 <= i < |init| && !IsPartRule(init[i].rule)
               && (forall j :: 0 <= j < i ==> IsPartRule(init[j].rule))
               && PartFold(init).msg == UnexpectedRule(init[i].rule);
      assert !IsPartRule(ps[i].rule);
    } else {
      PartFoldResult(init);
      assert !IsPartRule(ps[|ps| - 1].rule);
    }
  }

  // ---------------------------------------------------------------------
  // parse_bem

  /** One iteration of the loop of `parse_bem`. */
  function BemStep(acc: BemBlock, p: Pair): Result<BemBlock> {
    match p.rule
    case Block =>
      var part :- PartFold(p.inner);
      Ok(acc.(name := part.name, modifiers := part.modifiers))
    case Element =>
      var part :- PartFold(p.inner);
      Ok(acc.(elements := acc.elements + [BemElement(part.name, part.modifiers)]))
    case _ => Err(UnexpectedRule(p.rule))
  }

  /** The loop of `parse_bem` over the children `ps` of the `bem` node. */
  function BemFold(ps: seq<Pair>): Result<BemBlock>
    decreases |ps|
  {
    if ps == [] then Ok(BemBlock("", [], []))
    else
      var acc :- BemFold(ps[..|ps| - 1]);
      BemStep(acc, ps[|ps| - 1])
  }

  /**
   * `parse_bem` on the outcome of the grammar: a rejection becomes a
   * "Parsing error: " message, an accepted input is folded over the children
   * of its top-level node.
   */
  function Parse(grammar: Result<Pair>): Result<BemBlock> {
    match grammar
    case Err(e) => Err("Parsing error: " + e)
    case Ok(bem) => BemFold(bem.inner)
  }

  method ParseBem(grammar: Result<Pair>) returns (r: Result<BemBlock>)
    ensures r == Parse(grammar)
    ensures grammar.Err? ==> r.Err? && "Parsing error: " <= r.msg
  {
    if grammar.Err? {
      return Err("Parsing error: " + grammar.msg);
    }
    var children := grammar.value.inner;
    var name := "";
    var modifiers: seq<string> := [];
    var elements: seq<BemElement> := [];
    for i := 0 to |children|
      invariant BemFold(children[..i]) == Ok(BemBlock(name, modifiers, elements))
    {
      var child := children[i];
      assert children[..i + 1][..i] == children[..i];
      match child.rule {
        case Block =>
          var part := ParsePart(child);
          if part.Err? {
            BemFoldStuck(children, i + 1);
            return Err(part.msg);
          }
          name := part.value.name;
          modifiers := part.value.modifiers;
        case Element =>
          var part := ParsePart(child);
          if part.Err? {
            BemFoldStuck(children, i + 1);
            return Err(part.msg);
          }
          elements := elements + [BemElement(part.value.name, part.value.modifiers)];
        case _ =>
          BemFoldStuck(children, i + 1);
          return Err(UnexpectedRule(child.rule));
      }
    }
    assert children[..|children|] == children;
    return Ok(BemBlock(name, modifiers, elements));
  }

  /** Once a prefix of the children has failed, `parse_bem` fails with the same error. */
  lemma {:induction false} BemFoldStuck(ps: seq<Pair>, k: nat)
    requires k <= |ps| && BemFold(ps[..k]).Err?
    ensures BemFold(ps) == BemFold(ps[..k])
    decreases |ps| - k
  {
    if k == |ps| {
      assert ps[..k] == ps;
    } else {
      var init := ps[..|ps| - 1];
      assert init[..k] == ps[..k];
      BemFoldStuck(init, k);
    }
  }

  /** A child `parse_bem` accepts: a `block` or `element` node whose own parts parse. */
  predicate ChildOk(p: Pair) {
    (p.rule.Block? || p.rule.Element?) && PartFold(p.inner).Ok?
  }

  /** The error a rejected child produces: its `parse_part` error, or an unexpected rule. */
  function ChildError(p: Pair): string
    requires !ChildOk(p)
  {
    if p.rule.Block? || p.rule.Element? then PartFold(p.inner).msg else UnexpectedRule(p.rule)
  }

  /** The element an accepted `element` child contributes. */
  function ElementOf(p: Pair): BemElement
    requires ChildOk(p)
  {
    var part := PartFold(p.inner).value;
    BemElement(part.name, part.modifiers)
  }

  /** The number of nodes with rule `r`. */
  function Count(ps: seq<Pair>, r: Rule): nat
    decreases |ps|
  {
    if ps == [] then 0
    else Count(ps[..|ps| - 1], r) + (if ps[|ps| - 1].rule == r then 1 else 0)
  }

  /** `parse_bem` succeeds exactly when every child is accepted. */
  lemma {:induction false} BemFoldOk(ps: seq<Pair>)
    ensures BemFold(ps).Ok? <==> forall i :: 0 <= i < |ps| ==> ChildOk(ps[i])
    decreases |ps|
  {
    if ps != [] {
      var init := ps[..|ps| - 1];
      BemFoldOk(init);
      assert forall i :: 0 <= i < |init| ==> init[i] == ps[i];
    }
  }

  /** A failing `parse_bem` reports the error of its first rejected child, unchanged. */
  lemma {:induction false} BemFoldError(ps: seq<Pair>)
    requires BemFold(ps).Err?
    ensures exists i :: 0 <= i < |ps| && !ChildOk(ps[i])
                        && (forall j :: 0 <= j < i ==> ChildOk(ps[j]))
                        && BemFold(ps).msg == ChildError(ps[i])
    decreases |ps|
  {
    var init := ps[..|ps| - 1];
    assert forall i :: 0 <= i < |init| ==> init[i] == ps[i];
    if BemFold(init).Err? {
      BemFoldError(init);
      var i :| 0 <= i < |init| && !ChildOk(init[i])
               && (forall j :: 0 <= j < i ==> ChildOk(init[j]))
               && BemFold(init).msg == ChildError(init[i]);
      assert !ChildOk(ps[i]);
    } else {
      BemFoldOk(init);
      assert !ChildOk(ps[|ps| - 1]);
    }
  }

  /**
   * The block's name and modifiers come from the last `block` child; with
   * no `block` child they are "" and [].
   */
  lemma {:induction false} BemFoldHead(ps: seq<Pair>)
    requires BemFold(ps).Ok?
    ensures var b := BemFold(ps).value;
            var k := LastIndex(ps, Block);
            if k < 0 then b.name == "" && b.modifiers == []
            else PartFold(ps[k].inner).Ok?
                 && b.name == PartFold(ps[k].inner).value.name
                 && b.modifiers == PartFold(ps[k].inner).value.modifiers
    decreases |ps|
  {
    if ps != [] {
      var init := ps[..|ps| - 1];
      BemFoldHead(init);
      assert forall i :: 0 <= i < |init| ==> init[i] == ps[i];
    }
  }

  /**
   * Each `element` child appends exactly one element, in child order: the
   * element count equals the number of `element` children, and the child at
   * position i lands at the index given by the `element` children before it.
   */
  lemma {:induction false} BemFoldElements(ps: seq<Pair>)
    requires BemFold(ps).Ok?
    ensures forall i :: 0 <= i < |ps| ==> ChildOk(ps[i])
    ensures |BemFold(ps).value.elements| == Count(ps, Element)
    ensures forall i :: 0 <= i < |ps| && ps[i].rule == Element ==>
              Count(ps[..i], Element) < |BemFold(ps).value.elements|
              && BemFold(ps).value.elements[Count(ps[..i], Element)] == ElementOf(ps[i])
    decreases |ps|
  {
    BemFoldOk(ps);
    if ps != [] {
      var init := ps[..|ps| - 1];
      var last := ps[|ps| - 1];
      BemFoldElements(init);
      assert forall i :: 0 <= i < |init| ==> init[i] == ps[i];
      assert forall i :: 0 <= i < |init| ==> ps[..i] == init[..i];
      assert ps[..|ps| - 1] == init;
    }
  }

  // ---------------------------------------------------------------------
  // The shape of the library's parser test

  /**
   * The tree the grammar yields for a block with two modifiers, an element
   * with one modifier and an element without modifiers, one per line. The
   * text of `block`, `element` and `modifiers` nodes is never read, so it is
   * left empty here.
   */
  function SampleTree(block: string, m1: string, m2: string, e1: string, m3: string, e2: string): Pair {
    Pair(Bem, "", [
      Pair(Block, "", [Pair(Name, block, []), Pair(Modifiers, "", [Pair(Modifier, m1, []), Pair(Modifier, m2, [])])]),
      Pair(Element, "", [Pair(Name, e1, []), Pair(Modifiers, "", [Pair(Modifier, m3, [])])]),
      Pair(Element, "", [Pair(Name, e2, [])])])
  }

  /** Whatever the names, the sample parses to the block the test expects. */
  lemma SampleParse(block: string, m1: string, m2: string, e1: string, m3: string, e2: string)
    ensures Parse(Ok(SampleTree(block, m1, m2, e1, m3, e2)))
            == Ok(BemBlock(block, [m1, m2], [BemElement(e1, [m3]), BemElement(e2, [])]))
  {
    var ps := SampleTree(block, m1, m2, e1, m3, e2).inner;
    PartOfNameAndModifiers(block, [Pair(Modifier, m1, []), Pair(Modifier, m2, [])]);
    PartOfNameAndModifiers(e1, [Pair(Modifier, m3, [])]);
    assert Texts([Pair(Modifier, m1, []), Pair(Modifier, m2, [])]) == [m1, m2];
    assert Texts([Pair(Modifier, m3, [])]) == [m3];
    assert ps[0].inner == [Pair(Name, block, []), Pair(Modifiers, "", [Pair(Modifier, m1, []), Pair(Modifier, m2, [])])];
    assert ps[1].inner == [Pair(Name, e1, []), Pair(Modifiers, "", [Pair(Modifier, m3, [])])];
    var e2parts := ps[2].inner;
    assert e2parts[..0] == [];
    assert PartFold(e2parts) == Ok(Part(e2, []));
    var b0 := BemBlock(block, [m1, m2], []);
    var b1 := BemBlock(block, [m1, m2], [BemElement(e1, [m3])]);
    assert ps[..1][..0] == [];
    assert BemFold(ps[..1]) == Ok(b0);
    assert ps[..2][..1] == ps[..1] && ps[..2][1] == ps[1];
    assert b0.elements + [BemElement(e1, [m3])] == b1.elements;
    assert BemFold(ps[..2]) == Ok(b1);
    assert ps[..3][..2] == ps[..2] && ps[..3][2] == ps[2];
    assert b1.elements + [BemElement(e2, [])] == [BemElement(e1, [m3]), BemElement(e2, [])];
    assert ps[..3] == ps;
  }

  lemma PartOfNameAndModifiers(n: string, mods: seq<Pair>)
    ensures PartFold([Pair(Name, n, []), Pair(Modifiers, "", mods)]) == Ok(Part(n, Texts(mods)))
  {
    var ps := [Pair(Name, n, []), Pair(Modifiers, "", mods)];
    assert ps[..1][..0] == [];
    assert PartFold(ps[..1]) == Ok(Part(n, []));
    assert ps[..2] == ps;
  }
}
