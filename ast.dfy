/** The compiler's abstract syntax tree (compiler/src/abstract_syntax_tree.py):
    a node holds an operator (a token or a string), a parent link and a
    list of children (nodes or tokens). Building a node copies the
    children, links every node child back to it, and rejects an operator
    or child of any other type; printing a node lists the tree in
    pre-order, one entry per line. */
module Ast {
  import opened Wrappers
  import Lexer

  /** A Python value handed to the constructor: a node, a token, a
      string, or a value of any other type. */
  datatype Value = NodeValue(node: AstNode) | TokenValue(token: Lexer.Token) | StrValue(s: string) | OtherValue

  datatype AstError =
    | InvalidOperator   // "Operator must be of type Token or str."
    | InvalidChild      // "Child node must be of type AstNode or Token."

  /** An operator must be a token or a string. */
  predicate ValidOperator(v: Value)
  {
    v.TokenValue? || v.StrValue?
  }

  /** A child must be a node or a token. */
  predicate ValidChild(v: Value)
  {
    v.NodeValue? || v.TokenValue?
  }

  /** `Token.__str__` (compiler/src/lexical_token.py): `<kind, 'value'>`, or
      `<kind>` for a token without a value. */
  function TokenString(t: Lexer.Token): (s: string)
    ensures |s| >= 2 && s[0] == '<' && s[|s| - 1] == '>'
  {
    if t.value.Some? then "<" + t.kind + ", '" + t.value.value + "'>" else "<" + t.kind + ">"
  }

  /** `str` of an operator. */
  function OperatorString(v: Value): string
    requires ValidOperator(v)
  {
    if v.StrValue? then v.s else TokenString(v.token)
  }

  /** `"\n".join(lines)`. */
  function Join(lines: seq<string>): string
  {
    if |lines| == 0 then ""
    else if |lines| == 1 then lines[0]
    else Join(lines[..|lines| - 1]) + "\n" + lines[|lines| - 1]
  }

  /** Joining two non-empty lists puts one newline between them. */
  lemma {:induction false} JoinAppend(a: seq<string>, b: seq<string>)
    requires a != [] && b != []
    ensures Join(a + b) == Join(a) + "\n" + Join(b)
    decreases |b|
  {
    if |b| == 1 {
      assert (a + b)[..|a + b| - 1] == a;
    } else {
      var b' := b[..|b| - 1];
      JoinAppend(a, b');
      assert (a + b)[..|a + b| - 1] == a + b';
      assert Join(a + b) == Join(a + b') + "\n" + b[|b| - 1];
    }
  }

  /** The index of the first child that is neither a node nor a token, or
      the number of children when there is none. */
  function FirstInvalid(children: seq<Value>): (k: nat)
    ensures k <= |children|
    ensures forall i :: 0 <= i < k ==> ValidChild(children[i])
    ensures k < |children| ==> !ValidChild(children[k])
  {
    if children == [] then 0
    else if !ValidChild(children[0]) then 0
    else 1 + FirstInvalid(children[1..])
  }

  /** The nodes among the first `k` children. */
  function NodesBefore(children: seq<Value>, k: nat): set<AstNode>
    requires k <= |children|
  {
    set i | 0 <= i < k && children[i].NodeValue? :: children[i].node
  }

  lemma NodesBeforeStep(children: seq<Value>, i: nat)
    requires i < |children|
    ensures NodesBefore(children, i + 1)
         == NodesBefore(children, i) + (if children[i].NodeValue? then {children[i].node} else {})
  {
  }

  /** The node children the constructor links before it returns or
      raises: those before the first invalid child, none when the
      operator is invalid. */
  function Linked(operator: Value, children: seq<Value>): set<AstNode>
  {
    if ValidOperator(operator) then NodesBefore(children, FirstInvalid(children)) else {}
  }

  class AstNode {
    var parent: AstNode?
    var operator: Value
    var children: seq<Value>
    /** This node and every node below it. */
    ghost var Repr: set<AstNode>

    /** A well-formed tree: a valid operator, only node and token
        children, and every node child a well-formed tree not containing
        this node. */
    ghost predicate Valid()
      reads this`Repr, this`children, this`operator, Repr`Repr, Repr`children, Repr`operator
      decreases Repr
    {
      && this in Repr
      && ValidOperator(operator)
      && forall i :: 0 <= i < |children| ==>
           && ValidChild(children[i])
           && (children[i].NodeValue? ==>
                 var n := children[i].node;
                 n in Repr && n.Repr <= Repr && this !in n.Repr && n.Valid())
    }

    constructor Leaf(operator: Value, parent: AstNode?)
      requires ValidOperator(operator)
      ensures this.operator == operator && this.parent == parent && children == [] && Repr == {this}
      ensures Valid()
    {
      this.parent := parent;
      this.operator := operator;
      this.children := [];
      Repr := {this};
    }

    /** `self.children.append(node)` on a node being built, with the
        child's subtree joining the footprint. */
    method Append(child: Value)
      requires Valid() && ValidChild(child)
      requires child.NodeValue? ==> child.node.Valid() && this !in child.node.Repr
      modifies this`children, this`Repr
      ensures children == old(children) + [child]
      ensures Repr == old(Repr) + (if child.NodeValue? then child.node.Repr else {})
      ensures Valid()
    {
      children := children + [child];
      if child.NodeValue? {
        Repr := Repr + child.node.Repr;
      }
      forall i | 0 <= i < |children| && children[i].NodeValue?
        ensures children[i].node.Valid()
      {
        if i < |children| - 1 {
          assert children[i] == old(children)[i];
        }
      }
    }

    /** The entries of the tree in pre-order: the operator, then each
        child's entries in order (a token child is one entry). */
    ghost function PreOrder(): (entries: seq<string>)
      requires Valid()
      reads this`Repr, this`children, this`operator, Repr`Repr, Repr`children, Repr`operator
      ensures |entries| >= 1 && entries[0] == OperatorString(operator)
      decreases Repr, 1
    {
      [OperatorString(operator)] + ChildrenPreOrder(|children|)
    }

    /** The entries of the first `k` children's subtrees. */
    ghost function ChildrenPreOrder(k: nat): seq<string>
      requires Valid() && k <= |children|
      reads this`Repr, this`children, this`operator, Repr`Repr, Repr`children, Repr`operator
      decreases Repr, 0, k
    {
      if k == 0 then [] else ChildrenPreOrder(k - 1) + ChildEntries(k - 1)
    }

    /** The entries of child `i`: its subtree's, or the token alone. */
    ghost function ChildEntries(i: nat): (entries: seq<string>)
      requires Valid() && i < |children|
      reads this`Repr, this`children, this`operator, Repr`Repr, Repr`children, Repr`operator
      ensures entries != []
      decreases Repr, 0, 0
    {
      var child := children[i];
      if child.NodeValue? then child.node.PreOrder() else [TokenString(child.token)]
    }

    /** `str` of child `i`. */
    method ChildString(i: nat) returns (text: string)
      requires Valid() && i < |children|
      ensures text == Join(ChildEntries(i))
      decreases Repr, 0
    {
      var node := children[i];
      if node.NodeValue? {
        text := node.node.ToString();
      } else {
        text := TokenString(node.token);
      }
    }

    /** `__str__`: the pre-order entries of the tree, one per line. */
    method ToString() returns (s: string)
      requires Valid()
      ensures s == Join(PreOrder())
      decreases Repr, 1
    {
      ghost var head := [OperatorString(operator)];
      var outputString := OperatorString(operator);
      assert outputString == Join(head + ChildrenPreOrder(0));
      for i := 0 to |children|
        invariant outputString == Join(head + ChildrenPreOrder(i))
      {
        var text := ChildString(i);
        ghost var before, entries := ChildrenPreOrder(i), ChildEntries(i);
        assert ChildrenPreOrder(i + 1) == before + entries;
        JoinStep(head, before, entries);
        outputString := outputString + "\n" + text;
      }
      s := outputString;
    }
  }

  /** One more child's entries add one line and that child's lines. */
  lemma JoinStep(head: seq<string>, before: seq<string>, entries: seq<string>)
    requires head != [] && entries != []
    ensures Join(head + (before + entries)) == Join(head + before) + "\n" + Join(entries)
  {
    JoinAppend(head + before, entries);
    assert head + (before + entries) == head + before + entries;
  }

  /** A node without children prints as its operator alone. */
  lemma LeafPrints(node: AstNode)
    requires node.Valid() && node.children == []
    ensures Join(node.PreOrder()) == OperatorString(node.operator)
  {
  }

  /** The token strings of the first `k` children, all of them tokens. */
  function TokenLines(children: seq<Value>, k: nat): (lines: seq<string>)
    requires k <= |children| && forall i :: 0 <= i < |children| ==> children[i].TokenValue?
    ensures |lines| == k
    ensures forall i :: 0 <= i < k ==> lines[i] == TokenString(children[i].token)
  {
    if k == 0 then [] else TokenLines(children, k - 1) + [TokenString(children[k - 1].token)]
  }

  /** The entries of the first `k` token children are their token strings. */
  lemma {:induction false} TokenChildrenEntries(node: AstNode, k: nat)
    requires node.Valid() && k <= |node.children|
    requires forall i :: 0 <= i < |node.children| ==> node.children[i].TokenValue?
    ensures node.ChildrenPreOrder(k) == TokenLines(node.children, k)
  {
    if k > 0 {
      TokenChildrenEntries(node, k - 1);
    }
  }

  /** A node whose children are all tokens prints its operator, then each
      token in order, one per line. */
  lemma TokenChildrenPrint(node: AstNode)
    requires node.Valid() && forall i :: 0 <= i < |node.children| ==> node.children[i].TokenValue?
    ensures node.PreOrder() == [OperatorString(node.operator)] + TokenLines(node.children, |node.children|)
  {
    TokenChildrenEntries(node, |node.children|);
  }

  /** `AstNode.__init__` on a Python operator, parent and list of children.
      It raises on an operator that is neither a token nor a string, and on
      the first child that is neither a node nor a token; the node children
      before that one keep the link to the half-built node. On success the
      new node holds the operator, the parent and the children in their
      order, every node child's parent is the new node, and the new node
      is a well-formed tree. */
  method New(operator: Value, parent: AstNode?, children: seq<Value>) returns (r: Result<AstNode, AstError>)
    requires forall i :: 0 <= i < |children| && children[i].NodeValue? ==> children[i].node.Valid()
    modifies NodesBefore(children, |children|)`parent
    ensures !ValidOperator(operator) ==> r == Failure(InvalidOperator)
    ensures ValidOperator(operator) ==> (r.Success? <==> FirstInvalid(children) == |children|)
    ensures r.Success? ==>
      var node := r.value;
      && fresh(node)
      && node.operator == operator && node.parent == parent && node.children == children
      && node.Valid()
      && forall i :: 0 <= i < |children| && children[i].NodeValue? ==> children[i].node.parent == node
    ensures r.Failure? && ValidOperator(operator) ==>
      && r.error == InvalidChild
      && exists half: AstNode :: fresh(half) && half.children == children[..FirstInvalid(children)]
           && forall n :: n in NodesBefore(children, FirstInvalid(children)) ==> n.parent == half
    ensures forall n :: n in NodesBefore(children, |children|) && n !in Linked(operator, children) ==> n.parent == old(n.parent)
  {
    if !ValidOperator(operator) {
      return Failure(InvalidOperator);
    }
    var self := new AstNode.Leaf(operator, parent);
    for i := 0 to |children|
      invariant self.operator == operator && self.parent == parent
      invariant self.children == children[..i]
      invariant i <= FirstInvalid(children)
      invariant self.Valid()
      invariant forall n :: n in NodesBefore(children, i) ==> n.parent == self
      invariant forall n :: n in NodesBefore(children, |children|) && n !in NodesBefore(children, i) ==> n.parent == old(n.parent)
    {
      var node := children[i];
      NodesBeforeStep(children, i);
      if node.NodeValue? || node.TokenValue? {
        self.Append(node);
        if node.NodeValue? {
          node.node.parent := self;
        }
      } else {
        return Failure(InvalidChild);
      }
    }
    return Success(self);
  }
}
