/**
 Documents as trees: the stack the census keeps is the path from the root to where the reader is.
 */
module CensusTrees {
  import opened Census
  import opened Sequences

  datatype Node = Element(name: string, attrs: seq<Attr>, kids: Nodes) | Text(text: string)

  datatype Nodes = Nil | Cons(head: Node, tail: Nodes)

  /** The tokens of a node: start tag, contents, end tag. */
  function NodeTokens(node: Node): seq<Token> {
    match node
    case Element(name, attrs, kids) => [Start(name, attrs)] + Tokens(kids) + [End]
    case Text(text) => [Chars(text)]
  }

  function Tokens(nodes: Nodes): seq<Token> {
    match nodes
    case Nil => []
    case Cons(head, tail) => NodeTokens(head) + Tokens(tail)
  }

  lemma StackGrows(before: seq<Token>, t: Token)
    ensures StackAfter(before + [t]) == NextStack(StackAfter(before), t)
  {
    assert (before + [t])[..|before|] == before;
  }

  /** After a whole node the reader is where it was before it. */
  lemma {:induction false} NodeReturns(before: seq<Token>, node: Node)
    ensures StackAfter(before + NodeTokens(node)) == StackAfter(before)
    decreases node
  {
    match node
    case Element(name, attrs, kids) =>
      var inside := before + [Start(name, attrs)];
      StackGrows(before, Start(name, attrs));
      NodesReturn(inside, kids);
      StackGrows(inside + Tokens(kids), End);
      Reassociate(before, [Start(name, attrs)], Tokens(kids));
      Reassociate(before, [Start(name, attrs)] + Tokens(kids), [End]);
      assert StackAfter(inside) == StackAfter(before) + [name];
    case Text(text) => StackGrows(before, Chars(text));
  }

  lemma {:induction false} NodesReturn(before: seq<Token>, nodes: Nodes)
    ensures StackAfter(before + Tokens(nodes)) == StackAfter(before)
    decreases nodes
  {
    match nodes
    case Nil => assert before + [] == before;
    case Cons(head, tail) =>
      NodeReturns(before, head);
      NodesReturn(before + NodeTokens(head), tail);
      Reassociate(before, NodeTokens(head), Tokens(tail));
  }

  /** What is read inside an element, after any of its contents, is read at that element's place. */
  lemma ContentsAreReadInside(before: seq<Token>, name: string, attrs: seq<Attr>, sofar: Nodes)
    ensures StackAfter(before + [Start(name, attrs)] + Tokens(sofar)) == StackAfter(before) + [name]
  {
    StackGrows(before, Start(name, attrs));
    NodesReturn(before + [Start(name, attrs)], sofar);
  }
}
